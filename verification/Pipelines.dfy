/** The forwarding pipelines as functions on the forwarder's state.

    The Content Store and the strategy are inputs: a pipeline is given whether the store has a
    match, and the list of actions the strategy takes.  Time is the `now` of each event. */
module Pipelines {
  import opened Basics
  import opened PitEntries

  /** An Interest as it left. */
  datatype Sent = Sent(face: Face, name: Name, nonce: Nonce, hopLimit: Option<nat>)

  /** `finalized` lists the ids of finished entries; `received`, `sentData` and `sentNacks` count
      packets per face. */
  datatype Fw = Fw(
    pit: map<Key, Entry>,
    deadNonces: set<(Name, Nonce)>,
    nCreated: nat,
    nSatisfied: nat,
    nUnsatisfied: nat,
    finalized: set<nat>,
    received: multiset<Face>,
    sentData: multiset<Face>,
    sentNacks: multiset<Face>,
    sentInterests: multiset<Sent>)

  const START: Fw := Fw(map[], {}, 0, 0, 0, {}, multiset{}, multiset{}, multiset{}, multiset{})

  datatype Config = Config(defaultHopLimit: nat, deadNonceLifetime: nat)

  /** What a strategy may do to a pending Interest; ReturnData is sendDataToAll. */
  datatype Action =
    | SendInterest(face: Face, nonce: Nonce, lifetime: nat, hopLimit: Option<nat>)
    | SendNack(face: Face)
    | SetExpiryTimer(duration: int)
    | ReturnData(name: Name, ingress: Face)

  function WithEntry(f: Fw, k: Key, e: Entry): (r: Fw) {
    f.(pit := f.pit[k := e])
  }

  /** A timer never lies in the past. */
  function SetTimer(e: Entry, now: int, duration: int): (r: Entry) {
    e.(timer := Some(now + if duration > 0 then duration else 0))
  }

  // ---------------------------------------------------------------- outgoing pipelines

  predicate CanSendInterest(face: Face, hopLimit: Option<nat>) {
    hopLimit != Some(0) || face.local
  }

  function OutgoingInterest(f: Fw, k: Key, face: Face, nonce: Nonce, lifetime: nat, hopLimit: Option<nat>, now: int): (r: Fw)
    requires k in f.pit
  {
    if CanSendInterest(face, hopLimit)
    then WithEntry(f, k, UpdateOutRecord(f.pit[k], face, nonce, lifetime, now))
         .(sentInterests := f.sentInterests + multiset{Sent(face, k.name, nonce, hopLimit)})
    else f
  }

  predicate CanSendData(name: Name, face: Face) {
    face.id != 0 && (face.local || !IsLocalhost(name))
  }

  function OutgoingData(f: Fw, name: Name, face: Face): (r: Fw) {
    if CanSendData(name, face) then f.(sentData := f.sentData + multiset{face}) else f
  }

  predicate CanSendNack(e: Entry, face: Face) {
    TakesNack(face) && face in e.inRecords
  }

  function OutgoingNack(f: Fw, k: Key, face: Face): (r: Fw)
    requires k in f.pit
  {
    if CanSendNack(f.pit[k], face)
    then WithEntry(f, k, DeleteInRecord(f.pit[k], face)).(sentNacks := f.sentNacks + multiset{face})
    else f
  }

  // ---------------------------------------------------------------- strategy actions

  /** sendData: the in-record goes whether or not the Data can be sent. */
  function SendData(f: Fw, k: Key, name: Name, face: Face): (r: Fw)
    requires k in f.pit
  {
    OutgoingData(WithEntry(f, k, DeleteInRecord(f.pit[k], face)), name, face)
  }

  predicate MayReturnTo(ingress: Face, face: Face) {
    face.id != ingress.id || face.link == AdHoc
  }

  /** The downstreams that still wait. */
  function Waiting(e: Entry, now: int): (r: set<Face>) {
    set g | g in e.inRecords && e.inRecords[g].expiry > now
  }

  function Downstreams(e: Entry, ingress: Face, now: int): (r: set<Face>) {
    set g | g in Waiting(e, now) && MayReturnTo(ingress, g)
  }

  function Reachable(faces: set<Face>, name: Name): (r: set<Face>) {
    set g | g in faces && CanSendData(name, g)
  }

  /** The table without these in-records of one entry. */
  function Stripped(pit: map<Key, Entry>, k: Key, faces: set<Face>): (r: map<Key, Entry>)
    requires k in pit
    ensures k in r
  {
    pit[k := pit[k].(inRecords := pit[k].inRecords - faces)]
  }

  lemma StrippedNone(pit: map<Key, Entry>, k: Key)
    requires k in pit
    ensures Stripped(pit, k, {}) == pit
  {
    assert pit[k].inRecords - {} == pit[k].inRecords;
  }

  lemma StrippedStep(pit: map<Key, Entry>, k: Key, faces: set<Face>, g: Face)
    requires k in pit
    ensures var was := Stripped(pit, k, faces);
      && Stripped(pit, k, faces + {g}) == was[k := DeleteInRecord(was[k], g)]
      && (g in was[k].inRecords <==> g in pit[k].inRecords && g !in faces)
  {
    assert pit[k].inRecords - (faces + {g}) == (pit[k].inRecords - faces) - {g};
  }

  function SendDataToAll(f: Fw, k: Key, name: Name, ingress: Face, now: int): (r: Fw)
    requires k in f.pit
  {
    var faces := Downstreams(f.pit[k], ingress, now);
    f.(pit := Stripped(f.pit, k, faces), sentData := f.sentData + multiset(Reachable(faces, name)))
  }

  function Act(f: Fw, k: Key, a: Action, now: int): (r: Fw)
    requires k in f.pit
    ensures k in r.pit
  {
    match a
    case SendInterest(face, nonce, lifetime, hopLimit) => OutgoingInterest(f, k, face, nonce, lifetime, hopLimit, now)
    case SendNack(face) => OutgoingNack(f, k, face)
    case SetExpiryTimer(duration) => WithEntry(f, k, SetTimer(f.pit[k], now, duration))
    case ReturnData(name, ingress) => SendDataToAll(f, k, name, ingress, now)
  }

  function ActAll(f: Fw, k: Key, actions: seq<Action>, now: int): (r: Fw)
    requires k in f.pit
    ensures k in r.pit
    decreases |actions|
  {
    if actions == [] then f else ActAll(Act(f, k, actions[0], now), k, actions[1..], now)
  }

  predicate TakesNack(face: Face) {
    face.id != 0 && face.link == PointToPoint
  }

  function Nackable(faces: set<Face>): (r: set<Face>) {
    set g | g in faces && TakesNack(g)
  }

  /** sendNacks: one Nack for each in-record on a face that takes it, with some left out. */
  function SendNacks(f: Fw, k: Key, except: set<Face>): (r: Fw)
    requires k in f.pit
  {
    var faces := Nackable(f.pit[k].inRecords.Keys - except);
    f.(pit := Stripped(f.pit, k, faces), sentNacks := f.sentNacks + multiset(faces))
  }

  // ---------------------------------------------------------------- Dead Nonce List

  predicate NeedsDeadNonces(c: Config, k: Key, e: Entry) {
    e.satisfied ==> k.mustBeFresh && e.freshness < c.deadNonceLifetime
  }

  /** The Nonces of all out-records. */
  function OutNonces(k: Key, e: Entry): (r: set<(Name, Nonce)>) {
    set g | g in e.outRecords :: (k.name, e.outRecords[g].nonce)
  }

  /** The Nonce of one upstream's out-record. */
  function OutNonceOf(k: Key, e: Entry, face: Face): (r: set<(Name, Nonce)>) {
    if face in e.outRecords then {(k.name, e.outRecords[face].nonce)} else {}
  }

  // ---------------------------------------------------------------- incoming Interest

  /** On a point-to-point face the strategy is told of a loop and may answer with a Nack. */
  function InterestLoop(f: Fw, ingress: Face, answer: bool): (r: Fw) {
    if ingress.link == PointToPoint && answer then f.(sentNacks := f.sentNacks + multiset{ingress}) else f
  }

  function Insert(f: Fw, k: Key): (r: Fw)
    ensures k in r.pit
  {
    if k in f.pit then f else WithEntry(f, k, NewEntry(f.nCreated)).(nCreated := f.nCreated + 1)
  }

  function Satisfy(e: Entry, freshness: nat): (r: Entry) {
    e.(satisfied := true, freshness := freshness)
  }

  function ContentStoreHit(f: Fw, k: Key, ingress: Face, data: Data, now: int): (r: Fw)
    requires k in f.pit
  {
    SendData(WithEntry(f, k, SetTimer(Satisfy(f.pit[k], data.freshness), now, 0)), k, data.name, ingress)
  }

  function DefaultHopLimit(c: Config, hopLimit: Option<nat>): (r: Option<nat>) {
    if hopLimit.None? && c.defaultHopLimit > 0 then Some(c.defaultHopLimit) else hopLimit
  }

  /** The entry after its in-record and timer are set; `last` is when the last in-record expires. */
  function Pend(f: Fw, i: Interest, ingress: Face, last: int, now: int): (r: Fw)
    requires i.key in f.pit
    ensures i.key in r.pit
  {
    var e := UpdateInRecord(f.pit[i.key], ingress, i.nonce, i.lifetime, now);
    WithEntry(f, i.key, SetTimer(e, now, last - now))
  }

  function Dispatch(c: Config, f: Fw, i: Interest, actions: seq<Action>, now: int): (r: Fw)
    requires i.key in f.pit
  {
    match i.nextHop
    case NoTag => ActAll(f, i.key, actions, now)
    case NoSuchFace => f
    case Via(face) => OutgoingInterest(f, i.key, face, i.nonce, i.lifetime, DefaultHopLimit(c, i.hopLimit), now)
  }

  ghost predicate ContentStoreMiss(c: Config, f: Fw, i: Interest, ingress: Face, actions: seq<Action>, now: int, r: Fw)
    requires i.key in f.pit
  {
    exists last ::
      && IsLastExpiry(UpdateInRecord(f.pit[i.key], ingress, i.nonce, i.lifetime, now).inRecords, last)
      && r == Dispatch(c, Pend(f, i, ingress, last, now), i, actions, now)
  }

  /** Drops that come before any table is looked at. */
  predicate Refused(i: Interest, ingress: Face) {
    i.hopLimit == Some(0) || (!ingress.local && IsLocalhost(i.key.name))
  }

  function CountReceived(f: Fw, ingress: Face): (r: Fw) {
    f.(received := f.received + multiset{ingress})
  }

  function DecrementHopLimit(i: Interest): (r: Interest) {
    if i.hopLimit.Some? && i.hopLimit.value > 0 then i.(hopLimit := Some(i.hopLimit.value - 1)) else i
  }

  /** The Interest is found to loop, by the Dead Nonce List or by its PIT entry. */
  ghost predicate Loops(f: Fw, i: Interest, ingress: Face) {
    || (i.key.name, i.nonce) in f.deadNonces
    || (i.key in f.pit && IsLoop(f.pit[i.key], i.nonce, ingress))
  }

  /** `room`: the PIT has a block for a new entry.  `answer`: the strategy answers loops with a
      Nack, as the base class does and the multicast strategy does not.  `hit`: what the Content
      Store would find. */
  ghost predicate IncomingInterest(c: Config, f: Fw, i: Interest, ingress: Face, room: bool, answer: bool, hit: Option<Data>,
                                   actions: seq<Action>, now: int, r: Fw)
  {
    var g := CountReceived(f, ingress);
    if Refused(i, ingress) then r == g
    else if Loops(f, i, ingress) then r == InterestLoop(g, ingress, answer)
    else if i.key !in f.pit && !room then r == g
    else
      var h := Insert(g, i.key);
      if hit.Some? && h.pit[i.key].inRecords == map[]
      then r == ContentStoreHit(h, i.key, ingress, hit.value, now)
      else ContentStoreMiss(c, h, DecrementHopLimit(i), ingress, actions, now, r)
  }

  // ---------------------------------------------------------------- incoming Data

  /** Mark the entry satisfied and forget the upstream that answered, with its Nonce if needed. */
  function SatisfyFrom(c: Config, f: Fw, k: Key, ingress: Face, freshness: nat): (r: Fw)
    requires k in f.pit
  {
    var e := Satisfy(f.pit[k], freshness);
    var nonces := if NeedsDeadNonces(c, k, e) then OutNonceOf(k, e, ingress) else {};
    WithEntry(f, k, DeleteOutRecord(e, ingress)).(deadNonces := f.deadNonces + nonces)
  }

  /** `actions` are what the strategy does in afterReceiveData. */
  function SingleMatch(c: Config, f: Fw, k: Key, ingress: Face, data: Data, actions: seq<Action>, now: int): (r: Fw)
    requires k in f.pit
  {
    var timed := WithEntry(f, k, SetTimer(f.pit[k], now, 0));
    SatisfyFrom(c, ActAll(timed, k, actions, now), k, ingress, data.freshness)
  }

  /** afterReceiveData of the base class. */
  function BaseReturn(data: Data, ingress: Face): (r: seq<Action>) {
    [ReturnData(data.name, ingress)]
  }

  function ClearEntry(c: Config, f: Fw, k: Key, ingress: Face, freshness: nat, now: int): (r: Fw)
    requires k in f.pit
    ensures r.pit.Keys == f.pit.Keys
  {
    var g := SatisfyFrom(c, WithEntry(f, k, SetTimer(f.pit[k], now, 0)), k, ingress, freshness);
    WithEntry(g, k, g.pit[k].(inRecords := map[]))
  }

  /** The loop over the matched entries. */
  function ClearEntries(c: Config, f: Fw, keys: seq<Key>, ingress: Face, freshness: nat, now: int): (r: Fw)
    requires forall k :: k in keys ==> k in f.pit
    ensures r.pit.Keys == f.pit.Keys
    decreases |keys|
  {
    if keys == [] then f
    else ClearEntries(c, ClearEntry(c, f, keys[0], ingress, freshness, now), keys[1..], ingress, freshness, now)
  }

  /** The faces waiting in any of the entries. */
  function AllWaiting(f: Fw, keys: seq<Key>, now: int): (r: set<Face>)
    requires forall k :: k in keys ==> k in f.pit
  {
    if keys == [] then {} else Waiting(f.pit[keys[0]], now) + AllWaiting(f, keys[1..], now)
  }

  function ReturnTo(faces: set<Face>, ingress: Face): (r: set<Face>) {
    set g | g in faces && MayReturnTo(ingress, g)
  }

  function MultiMatch(c: Config, f: Fw, keys: seq<Key>, ingress: Face, data: Data, now: int): (r: Fw)
    requires forall k :: k in keys ==> k in f.pit
  {
    var faces := Reachable(ReturnTo(AllWaiting(f, keys, now), ingress), data.name);
    ClearEntries(c, f, keys, ingress, data.freshness, now).(sentData := f.sentData + multiset(faces))
  }

  /** `keys` is the PIT match result in the order the name tree yields it. */
  ghost predicate IsMatchResult(f: Fw, data: Data, keys: seq<Key>) {
    && NoDup(keys)
    && (forall k :: k in keys <==> k in f.pit && Matches(k, data))
  }

  function IncomingData(c: Config, f: Fw, data: Data, ingress: Face, keys: seq<Key>, actions: seq<Action>, now: int): (r: Fw)
    requires IsMatchResult(f, data, keys)
  {
    if (!ingress.local && IsLocalhost(data.name)) || keys == [] then f
    else if |keys| == 1 then assert keys[0] in keys; SingleMatch(c, f, keys[0], ingress, data, actions, now)
    else MultiMatch(c, f, keys, ingress, data, now)
  }

  // ---------------------------------------------------------------- incoming Nack

  predicate AcceptsNack(f: Fw, k: Key, nonce: Nonce, ingress: Face) {
    && ingress.link == PointToPoint
    && k in f.pit
    && ingress in f.pit[k].outRecords
    && f.pit[k].outRecords[ingress].nonce == nonce
  }

  function RecordNack(e: Entry, face: Face): (r: Entry)
    requires face in e.outRecords
  {
    e.(outRecords := e.outRecords[face := e.outRecords[face].(nacked := true)])
  }

  ghost function IncomingNack(f: Fw, k: Key, nonce: Nonce, ingress: Face, actions: seq<Action>, now: int): (r: Fw) {
    if AcceptsNack(f, k, nonce, ingress) then
      var e := RecordNack(f.pit[k], ingress);
      ActAll(WithEntry(f, k, if HasPendingOut(e, now) then e else SetTimer(e, now, 0)), k, actions, now)
    else f
  }

  // ---------------------------------------------------------------- the end of an entry

  function Finalize(c: Config, f: Fw, k: Key): (r: Fw)
    requires k in f.pit
  {
    var e := f.pit[k];
    f.(pit := f.pit - {k},
       deadNonces := f.deadNonces + if NeedsDeadNonces(c, k, e) then OutNonces(k, e) else {},
       nSatisfied := f.nSatisfied + if e.satisfied then 1 else 0,
       nUnsatisfied := f.nUnsatisfied + if e.satisfied then 0 else 1,
       finalized := f.finalized + {e.id})
  }

  function RemoveFace(f: Fw, face: Face): (r: Fw) {
    f.(pit := map k | k in f.pit :: DeleteOutRecord(DeleteInRecord(f.pit[k], face), face))
  }
}
