/** Putting fragments together again (LpReassembler).

    The bytes handed to ndn::Block are opaque here, except that its constructor may reject
    them: `isTlv` says which ones it accepts. */
module LpReassemblers {
  import opened Basics
  import opened LpPackets
  import opened LpFragmenters

  /** The remote endpoint and the Sequence of the first fragment. */
  datatype Key = Key(endpoint: nat, messageId: Seq64)

  /** A slot is filled if its packet has a Sequence. */
  datatype PartialPacket = PartialPacket(fragments: seq<LpPacket>, fragCount: nat, nReceivedFragments: nat)

  type Partials = map<Key, PartialPacket>

  datatype Outcome =
    | Incomplete
    | Complete(netPkt: seq<Byte>, firstFrag: LpPacket)
    | Malformed

  datatype Options = Options(nMaxFragments: nat, isTlv: seq<Byte> -> bool)

  function FragIndexOf(p: LpPacket): (i: Seq64) {
    if p.fragIndex.Some? then p.fragIndex.value else 0
  }

  function FragCountOf(p: LpPacket): (n: Seq64) {
    if p.fragCount.Some? then p.fragCount.value else 1
  }

  function Filled(p: LpPacket): (b: bool) {
    p.sequence.Some?
  }

  /** The partial packet that a multi-fragment packet belongs to; None if it is dropped or
      complete on its own. */
  function KeyOf(endpoint: nat, p: LpPacket, nMaxFragments: nat): (k: Option<Key>) {
    if FragIndexOf(p) < FragCountOf(p) && FragCountOf(p) <= nMaxFragments
       && !(FragIndexOf(p) == 0 && FragCountOf(p) == 1) && p.sequence.Some?
    then Some(Key(endpoint, Minus(p.sequence.value, FragIndexOf(p))))
    else None
  }

  function Fresh(n: nat): (pp: PartialPacket) {
    PartialPacket(seq(n, _ => IDLE), n, 0)
  }

  function Lookup(parts: Partials, key: Key, n: nat): (pp: PartialPacket) {
    if key in parts then parts[key] else Fresh(n)
  }

  function Store(pp: PartialPacket, i: nat, p: LpPacket): (r: PartialPacket)
    requires i < |pp.fragments|
  {
    pp.(fragments := pp.fragments[i := p], nReceivedFragments := pp.nReceivedFragments + 1)
  }

  ghost predicate WellFormed(parts: Partials) {
    forall k :: k in parts ==> parts[k].fragCount == |parts[k].fragments|
  }

  /** The part of receiveFragment after the key has been computed. */
  function AddFragment(parts: Partials, key: Key, p: LpPacket, isTlv: seq<Byte> -> bool): (r: (Partials, Outcome))
    requires WellFormed(parts) && FragIndexOf(p) < FragCountOf(p)
  {
    var pp := Lookup(parts, key, FragCountOf(p));
    if FragCountOf(p) != pp.fragCount || Filled(pp.fragments[FragIndexOf(p)]) then (parts, Incomplete)
    else
      var pp' := Store(pp, FragIndexOf(p), p);
      if pp'.nReceivedFragments != pp'.fragCount then (parts[key := pp'], Incomplete)
      else if isTlv(Join(pp'.fragments)) then (parts - {key}, Complete(Join(pp'.fragments), pp'.fragments[0]))
      else (parts[key := pp'], Malformed)
  }

  /** receiveFragment. */
  function Receive(parts: Partials, endpoint: nat, p: LpPacket, o: Options): (r: (Partials, Outcome))
    requires WellFormed(parts) && p.fragment.Some?
  {
    if FragIndexOf(p) >= FragCountOf(p) || FragCountOf(p) > o.nMaxFragments then (parts, Incomplete)
    else if FragIndexOf(p) == 0 && FragCountOf(p) == 1 then
      (parts, if o.isTlv(p.fragment.value) then Complete(p.fragment.value, p) else Malformed)
    else if p.sequence.None? then (parts, Incomplete)
    else AddFragment(parts, Key(endpoint, Minus(p.sequence.value, FragIndexOf(p))), p, o.isTlv)
  }

  lemma ReceiveKeepsWellFormed(parts: Partials, endpoint: nat, p: LpPacket, o: Options)
    requires WellFormed(parts) && p.fragment.Some?
    ensures WellFormed(Receive(parts, endpoint, p, o).0)
  {
  }

  /** A packet touches no partial packet but its own. */
  lemma ReceiveFrame(parts: Partials, endpoint: nat, p: LpPacket, o: Options, k: Key)
    requires WellFormed(parts) && p.fragment.Some? && KeyOf(endpoint, p, o.nMaxFragments) != Some(k)
    ensures var r := Receive(parts, endpoint, p, o).0;
            (k in r <==> k in parts) && (k in parts ==> r[k] == parts[k])
  {
  }

  /** The packet cannot be used: its index is not below its count, there are too many fragments, it
      is one of several without a Sequence, or its partial packet disagrees on the count or has it
      already. */
  predicate Unusable(parts: Partials, endpoint: nat, p: LpPacket, nMaxFragments: nat) {
    var n := if p.fragCount == None then 1 else p.fragCount.value;
    var i := if p.fragIndex == None then 0 else p.fragIndex.value;
    || n <= i || nMaxFragments < n
    || (n != 1 &&
        (p.sequence == None ||
         var k := Key(endpoint, (p.sequence.value - i) % TWO64);
         k in parts && (parts[k].fragCount != n || i >= |parts[k].fragments| || parts[k].fragments[i].sequence != None)))
  }

  /** Exactly the unusable packets leave no trace; every other one is kept or delivered. */
  lemma IgnoredIffUnusable(parts: Partials, endpoint: nat, p: LpPacket, o: Options)
    requires WellFormed(parts) && p.fragment.Some?
    ensures Receive(parts, endpoint, p, o) == (parts, Incomplete) <==> Unusable(parts, endpoint, p, o.nMaxFragments)
  {
    if FragIndexOf(p) < FragCountOf(p) && FragCountOf(p) != 1 && p.sequence.Some? {
      var key := Key(endpoint, Minus(p.sequence.value, FragIndexOf(p)));
      var pp := Lookup(parts, key, FragCountOf(p));
      if FragCountOf(p) == pp.fragCount && !Filled(pp.fragments[FragIndexOf(p)]) {
        var r := AddFragment(parts, key, p, o.isTlv).0;
        assert key in r ==> Filled(r[key].fragments[FragIndexOf(p)]);
      }
    }
  }

  // ---------------------------------------------------------------- the object

  class LpReassembler {
    const options: Options
    var partialPackets: Partials
    var nTimeouts: nat

    ghost predicate Valid()
      reads this
    {
      WellFormed(partialPackets)
    }

    constructor (options: Options)
      ensures Valid() && this.options == options && partialPackets == map[] && nTimeouts == 0
    {
      this.options := options;
      partialPackets := map[];
      nTimeouts := 0;
    }

    /** receiveFragment. */
    method ReceiveFragment(endpoint: nat, packet: LpPacket) returns (outcome: Outcome)
      requires Valid() && packet.fragment.Some?
      modifies this`partialPackets
      ensures Valid()
      ensures (partialPackets, outcome) == Receive(old(partialPackets), endpoint, packet, options)
    {
      ReceiveKeepsWellFormed(partialPackets, endpoint, packet, options);
      outcome := Incomplete;
      var fragIndex, fragCount := FragIndexOf(packet), FragCountOf(packet);
      if fragIndex >= fragCount || fragCount > options.nMaxFragments {
        return;
      }
      if fragIndex == 0 && fragCount == 1 {
        outcome := if options.isTlv(packet.fragment.value) then Complete(packet.fragment.value, packet) else Malformed;
        return;
      }
      if packet.sequence.None? {
        return;
      }
      var key := Key(endpoint, Minus(packet.sequence.value, fragIndex));
      var pp := Fresh(fragCount);
      if key in partialPackets {
        pp := partialPackets[key];
        if fragCount != pp.fragCount {
          return;
        }
      }
      if Filled(pp.fragments[fragIndex]) {
        return;
      }
      pp := Store(pp, fragIndex, packet);
      if pp.nReceivedFragments == pp.fragCount {
        var reassembled := DoReassembly(pp.fragments);
        if !options.isTlv(reassembled) {
          partialPackets := partialPackets[key := pp];
          return Malformed;
        }
        partialPackets := partialPackets - {key};
        return Complete(reassembled, pp.fragments[0]);
      }
      partialPackets := partialPackets[key := pp];
    }

    /** doReassembly: measure, allocate, copy. */
    static method DoReassembly(fragments: seq<LpPacket>) returns (bytes: seq<Byte>)
      ensures bytes == Join(fragments)
    {
      var payloadSize := 0;
      for i := 0 to |fragments|
        invariant payloadSize == |Join(fragments[..i])|
      {
        assert fragments[..i + 1] == fragments[..i] + [fragments[i]];
        JoinAppend(fragments[..i], fragments[i]);
        payloadSize := payloadSize + |Payload(fragments[i])|;
      }
      assert fragments[..|fragments|] == fragments;
      var fragBuffer := new Byte[payloadSize];
      var it := 0;
      for i := 0 to |fragments|
        invariant it == |Join(fragments[..i])| <= payloadSize
        invariant fragBuffer[..it] == Join(fragments[..i])
      {
        assert fragments[..i + 1] == fragments[..i] + [fragments[i]];
        JoinAppend(fragments[..i], fragments[i]);
        JoinPrefix(fragments, i + 1);
        it := CopyInto(fragBuffer, it, Payload(fragments[i]));
      }
      bytes := fragBuffer[..];
    }

    /** timeoutPartialPacket. */
    method TimeoutPartialPacket(key: Key)
      requires Valid()
      modifies this
      ensures Valid() && partialPackets == old(partialPackets) - {key}
      ensures nTimeouts == old(nTimeouts) + if key in old(partialPackets) then 1 else 0
    {
      if key !in partialPackets {
        return;
      }
      nTimeouts := nTimeouts + 1;
      partialPackets := partialPackets - {key};
    }
  }

  /** std::copy into a buffer. */
  method CopyInto(buffer: array<Byte>, at: nat, bytes: seq<Byte>) returns (end: nat)
    requires at + |bytes| <= buffer.Length
    modifies buffer
    ensures end == at + |bytes|
    ensures buffer[..at] == old(buffer[..at]) && buffer[at..end] == bytes
    ensures buffer[..end] == old(buffer[..at]) + bytes
  {
    for i := 0 to |bytes|
      invariant buffer[..at] == old(buffer[..at])
      invariant buffer[at..at + i] == bytes[..i]
    {
      buffer[at + i] := bytes[i];
    }
    end := at + |bytes|;
    assert buffer[..end] == buffer[..at] + buffer[at..end];
  }

  lemma {:induction false} JoinPrefix(fragments: seq<LpPacket>, i: nat)
    requires i <= |fragments|
    ensures |Join(fragments[..i])| <= |Join(fragments)|
    decreases |fragments| - i
  {
    if i == |fragments| {
      assert fragments[..i] == fragments;
    } else {
      assert fragments[..i + 1] == fragments[..i] + [fragments[i]];
      JoinAppend(fragments[..i], fragments[i]);
      JoinPrefix(fragments, i + 1);
    }
  }
}
