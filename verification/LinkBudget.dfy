/** What the MTU rules of the link service amount to: which packets are dropped, when a packet is
    fragmented, and how large a packet may be. */
module LinkBudget {
  import opened Basics
  import opened LpPackets
  import opened LpFragmenters
  import opened LinkServices
  import opened Division

  /** The transport's MTU is unlimited or a number of octets; the override is a number of octets. */
  predicate Sensible(o: LinkOptions) {
    (o.transportMtu == MTU_UNLIMITED || o.transportMtu >= 0) && o.overrideMtu >= 0
  }

  /** A packet is dropped exactly if the transport has an MTU and the packet is larger than that or
      than the override: an override can only lower an MTU that there is. */
  lemma DroppedIffOverEither(o: LinkOptions, p: LpPacket)
    requires Sensible(o)
    ensures OverMtu(p, EffectiveMtu(o)) <==>
      o.transportMtu >= 0 && (WireSize(p) > o.transportMtu || WireSize(p) > o.overrideMtu)
  {
    hide WireSize;
  }

  /** Octets reserved for the TxSequence and the congestion mark. */
  function Reserved(o: LinkOptions): (n: nat) {
    (if o.reliable then 12 else 0) + (if o.allowCongestionMarking then 12 else 0)
  }

  /** Fragmentation is at work exactly if it is allowed and the transport has an MTU, except for the
      MTUs that a reservation turns into MTU_UNLIMITED; the fragmenter then gets what the
      reservations leave of the smaller MTU. */
  lemma FragmentsIff(o: LinkOptions)
    requires Sensible(o)
    ensures var m := if o.overrideMtu <= o.transportMtu then o.overrideMtu else o.transportMtu;
      && (Fragments(o) <==>
            && o.allowFragmentation && o.transportMtu >= 0
            && !(m == 11 && Reserved(o) > 0) && !(m == 23 && Reserved(o) == 24))
      && (Fragments(o) ==> SendMtu(o) == m - Reserved(o))
  {
    UnlimitedAfterReservation(o);
  }

  lemma {:induction false} CeilAtMost(n: nat, d: nat, k: nat)
    requires d > 0
    ensures Ceil(n, d) <= k <==> n <= k * d
    decreases n
  {
    CeilStep(n, d);
    hide Ceil;
    if n > d {
      if k > 0 {
        CeilAtMost(n - d, d, k - 1);
        assert (k - 1) * d == k * d - d;
      }
    } else if k > 0 {
      MulMonotone(d, 1, k);
    }
  }

  /** What `n` fragments can carry: the first one also the packet's own headers. */
  function Capacity(p: LpPacket, mtu: nat, n: nat): (c: int) {
    (mtu - 50 - HeaderSize(p)) + (n - 1) * (mtu - 50)
  }

  /** The fragmenter accepts a packet exactly if it fits whole beside 30 octets of headers, or the
      first fragment has room for at least one octet and the payload is within the capacity of
      the allowed number of fragments. */
  lemma AcceptedIffWithinCapacity(p: LpPacket, mtu: nat, nMaxFragments: nat)
    requires p.fragment.Some? && nMaxFragments >= 1
    ensures Fragmentable(p, mtu, nMaxFragments) <==>
      || 30 + WireSize(p) <= mtu
      || (HeaderSize(p) + 51 <= mtu && |p.fragment.value| <= Capacity(p, mtu, nMaxFragments))
  {
    hide HeaderSize, WireSize;
    if HeaderSize(p) + 51 <= mtu {
      var room, later := mtu - HeaderSize(p) - 50, mtu - 50;
      var left := |Payload(p)| - FirstPayloadSize(p, mtu);
      CeilAtMost(left, later, nMaxFragments - 1);
      assert (nMaxFragments - 1) * later >= 0 by { MulMonotone(later, 0, nMaxFragments - 1); }
      hide Ceil;
      assert FragCount(p, mtu) <= nMaxFragments <==> left <= (nMaxFragments - 1) * later;
    }
  }

  /** Each fragment leaves with the next Sequence if there are several or the link is reliable; a
      packet sent whole on an unreliable link has none. */
  lemma SequenceIsNext(o: LinkOptions, last: Seq64, pkt: LpPacket, frags: seq<LpPacket>, i: nat, p: LpPacket)
    requires IsNetworkPacket(pkt) && i < |frags| < TWO64 && (frags == [pkt] || IsFragmentation(pkt, frags))
    requires Emitted(o, last, frags, i, p)
    ensures p.sequence == if !o.reliable && frags == [pkt] then None else Some((last + 1 + i) % TWO64)
    ensures p.fragment == frags[i].fragment && p.others == frags[i].others
  {
    hide IsFragmentation, WireSize, Join;
    if frags != [pkt] {
      assert |frags| >= 2 by { AtLeastTwo(pkt, frags); }
    }
  }

  lemma AtLeastTwo(pkt: LpPacket, frags: seq<LpPacket>)
    requires IsFragmentation(pkt, frags)
    ensures |frags| >= 2
  {
  }
}
