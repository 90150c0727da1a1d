/** PIT entries and the packet fields the forwarding pipelines look at. */
module PitEntries {
  import opened Basics

  type Name = seq<string>

  type Nonce = nat

  datatype LinkType = PointToPoint | MultiAccess | AdHoc

  /** `id` 0 is the invalid face id. */
  datatype Face = Face(id: nat, link: LinkType, local: bool)

  /** What makes two Interests share a PIT entry. */
  datatype Key = Key(name: Name, canBePrefix: bool, mustBeFresh: bool)

  datatype NextHopTag = NoTag | NoSuchFace | Via(face: Face)

  datatype Interest = Interest(key: Key, nonce: Nonce, lifetime: nat, hopLimit: Option<nat>, nextHop: NextHopTag)

  datatype Data = Data(name: Name, freshness: nat)

  datatype InRecord = InRecord(nonce: Nonce, expiry: int)

  datatype OutRecord = OutRecord(nonce: Nonce, renewed: int, expiry: int, nacked: bool)

  /** `id` tells apart two entries that use the same key one after the other. */
  datatype Entry = Entry(
    id: nat,
    inRecords: map<Face, InRecord>,
    outRecords: map<Face, OutRecord>,
    satisfied: bool,
    freshness: nat,
    timer: Option<int>)

  /** Ten days in milliseconds. */
  const MAX_LIFETIME: nat := 864_000_000

  function Expiry(now: int, lifetime: nat): (t: int)
    ensures now <= t <= now + MAX_LIFETIME
  {
    now + if lifetime < MAX_LIFETIME then lifetime else MAX_LIFETIME
  }

  predicate IsLocalhost(name: Name) {
    |name| > 0 && name[0] == "localhost"
  }

  predicate Matches(key: Key, data: Data) {
    if key.canBePrefix then key.name <= data.name else key.name == data.name
  }

  function NewEntry(id: nat): (e: Entry) {
    Entry(id, map[], map[], false, 0, None)
  }

  function UpdateInRecord(e: Entry, face: Face, nonce: Nonce, lifetime: nat, now: int): (r: Entry) {
    e.(inRecords := e.inRecords[face := InRecord(nonce, Expiry(now, lifetime))])
  }

  /** Renewing an out-record keeps a Nack it has received. */
  function UpdateOutRecord(e: Entry, face: Face, nonce: Nonce, lifetime: nat, now: int): (r: Entry) {
    var nacked := face in e.outRecords && e.outRecords[face].nacked;
    e.(outRecords := e.outRecords[face := OutRecord(nonce, now, Expiry(now, lifetime), nacked)])
  }

  function DeleteInRecord(e: Entry, face: Face): (r: Entry) {
    e.(inRecords := e.inRecords - {face})
  }

  function DeleteOutRecord(e: Entry, face: Face): (r: Entry) {
    e.(outRecords := e.outRecords - {face})
  }

  // ---------------------------------------------------------------- duplicate Nonces

  /** Where a Nonce has been seen: the four flag bits. */
  datatype Duplicates = Duplicates(inSame: bool, inOther: bool, outSame: bool, outOther: bool)

  ghost predicate InCarries(e: Entry, face: Face, nonce: Nonce) {
    face in e.inRecords && e.inRecords[face].nonce == nonce
  }

  ghost predicate OutCarries(e: Entry, face: Face, nonce: Nonce) {
    face in e.outRecords && e.outRecords[face].nonce == nonce
  }

  /** The Nonce is in some record of the entry. */
  ghost predicate Carries(e: Entry, nonce: Nonce) {
    (exists g :: InCarries(e, g, nonce)) || (exists g :: OutCarries(e, g, nonce))
  }

  predicate Any(d: Duplicates) {
    d.inSame || d.inOther || d.outSame || d.outOther
  }

  method FindDuplicateNonce(e: Entry, nonce: Nonce, face: Face) returns (d: Duplicates)
    ensures d.inSame <==> InCarries(e, face, nonce)
    ensures d.inOther <==> exists g :: g != face && InCarries(e, g, nonce)
    ensures d.outSame <==> OutCarries(e, face, nonce)
    ensures d.outOther <==> exists g :: g != face && OutCarries(e, g, nonce)
    ensures Any(d) <==> Carries(e, nonce)
  {
    d := Duplicates(false, false, false, false);
    var todo := e.inRecords.Keys;
    while todo != {}
      invariant todo <= e.inRecords.Keys
      invariant !d.outSame && !d.outOther
      invariant d.inSame <==> face !in todo && InCarries(e, face, nonce)
      invariant d.inOther <==> exists g :: g != face && g !in todo && InCarries(e, g, nonce)
    {
      var g :| g in todo;
      todo := todo - {g};
      if e.inRecords[g].nonce == nonce {
        assert InCarries(e, g, nonce);
        d := if g == face then d.(inSame := true) else d.(inOther := true);
      }
    }
    todo := e.outRecords.Keys;
    while todo != {}
      invariant todo <= e.outRecords.Keys
      invariant d.inSame <==> InCarries(e, face, nonce)
      invariant d.inOther <==> exists g :: g != face && InCarries(e, g, nonce)
      invariant d.outSame <==> face !in todo && OutCarries(e, face, nonce)
      invariant d.outOther <==> exists g :: g != face && g !in todo && OutCarries(e, g, nonce)
    {
      var g :| g in todo;
      todo := todo - {g};
      if e.outRecords[g].nonce == nonce {
        assert OutCarries(e, g, nonce);
        d := if g == face then d.(outSame := true) else d.(outOther := true);
      }
    }
  }

  /** The pipeline's test: a point-to-point face may repeat its own Nonce. */
  ghost predicate IsLoop(e: Entry, nonce: Nonce, ingress: Face) {
    Carries(e, nonce) && !(ingress.link == PointToPoint && InCarries(e, ingress, nonce))
  }

  // ---------------------------------------------------------------- expiry

  ghost predicate IsLastExpiry(inRecords: map<Face, InRecord>, t: int) {
    && (exists g :: g in inRecords && inRecords[g].expiry == t)
    && (forall g :: g in inRecords ==> inRecords[g].expiry <= t)
  }

  /** max_element over the expiry of the in-records. */
  method LastExpiry(inRecords: map<Face, InRecord>) returns (t: int)
    requires inRecords != map[]
    ensures IsLastExpiry(inRecords, t)
  {
    var todo := inRecords.Keys;
    assert exists g :: g in inRecords;
    var first :| first in todo;
    t := inRecords[first].expiry;
    todo := todo - {first};
    while todo != {}
      invariant todo <= inRecords.Keys
      invariant exists g :: g in inRecords && inRecords[g].expiry == t
      invariant forall g :: g in inRecords && g !in todo ==> inRecords[g].expiry <= t
    {
      var g :| g in todo;
      todo := todo - {g};
      if t < inRecords[g].expiry {
        t := inRecords[g].expiry;
      }
    }
  }

  ghost predicate HasPendingOut(e: Entry, now: int) {
    exists g :: g in e.outRecords && e.outRecords[g].expiry >= now && !e.outRecords[g].nacked
  }

  method HasPendingOutRecords(e: Entry, now: int) returns (b: bool)
    ensures b <==> HasPendingOut(e, now)
  {
    var todo := e.outRecords.Keys;
    b := false;
    while todo != {} && !b
      invariant todo <= e.outRecords.Keys
      invariant b <==> exists g :: g in e.outRecords && g !in todo && e.outRecords[g].expiry >= now && !e.outRecords[g].nacked
    {
      var g :| g in todo;
      todo := todo - {g};
      b := e.outRecords[g].expiry >= now && !e.outRecords[g].nacked;
    }
  }
}
