/** Splitting a network packet into LpPackets (LpFragmenter). */
module LpFragmenters {
  import opened Basics
  import opened LpPackets
  import opened Division

  const MAX_SINGLE_FRAG_OVERHEAD: nat := 1 + 9 + 1 + 1 + 8 + 1 + 9
  const MAX_FRAG_OVERHEAD: nat := 1 + 9 + 1 + 1 + 8 + 1 + 1 + 8 + 1 + 1 + 8 + 1 + 9

  function Payload(p: LpPacket): (r: seq<Byte>) {
    match p.fragment
    case None => []
    case Some(f) => f
  }

  /** The payloads of `frags`, joined in order. */
  function Join(frags: seq<LpPacket>): (r: seq<Byte>) {
    if frags == [] then [] else Join(frags[..|frags| - 1]) + Payload(frags[|frags| - 1])
  }

  /** Fragment `i` of `n` of `packet`: the first one keeps the packet's other fields. */
  function Fragment(packet: LpPacket, i: Seq64, n: Seq64, payload: seq<Byte>): (r: LpPacket) {
    (if i == 0 then packet else IDLE).(
      fragIndex := Some(i), fragCount := Some(n), fragment := Some(payload))
  }

  /** `frags` are the fragments of `packet`: at least two, numbered, none of them empty, and
      together carrying its payload. */
  ghost predicate IsFragmentation(packet: LpPacket, frags: seq<LpPacket>) {
    && packet.fragment.Some?
    && 2 <= |frags| < TWO64
    && Join(frags) == packet.fragment.value
    && forall i :: 0 <= i < |frags| ==>
         Payload(frags[i]) != [] && frags[i] == Fragment(packet, i, |frags|, Payload(frags[i]))
  }

  /** The fast path: the packet with a Sequence fits without fragmentation. */
  predicate FitsWhole(packet: LpPacket, mtu: nat) {
    MAX_SINGLE_FRAG_OVERHEAD + WireSize(packet) <= mtu
  }

  /** Not even one octet of payload fits beside the headers of the first fragment. */
  predicate MtuTooSmall(packet: LpPacket, mtu: nat) {
    MAX_FRAG_OVERHEAD + HeaderSize(packet) + 1 > mtu
  }

  function Ceil(n: nat, d: nat): (q: nat)
    requires d > 0
  {
    n / d + if n % d != 0 then 1 else 0
  }

  function FirstPayloadSize(packet: LpPacket, mtu: nat): (s: nat)
    requires !MtuTooSmall(packet, mtu)
  {
    var room := mtu - HeaderSize(packet) - MAX_FRAG_OVERHEAD;
    if |Payload(packet)| < room then |Payload(packet)| else room
  }

  function FragCount(packet: LpPacket, mtu: nat): (n: nat)
    requires !MtuTooSmall(packet, mtu)
  {
    1 + Ceil(|Payload(packet)| - FirstPayloadSize(packet, mtu), mtu - MAX_FRAG_OVERHEAD)
  }

  lemma CeilStep(n: nat, d: nat)
    requires d > 0
    ensures n == 0 ==> Ceil(n, d) == 0
    ensures 0 < n <= d ==> Ceil(n, d) == 1
    ensures n > d ==> Ceil(n, d) == 1 + Ceil(n - d, d)
  {
    if n > d {
      DivStep(n, d);
    } else if 0 < n < d {
      assert n / d == 0;
    }
  }

  /** When the whole packet does not fit, it is never sent as a single fragment. */
  lemma NeedsTwoFragments(packet: LpPacket, mtu: nat)
    requires packet.fragment.Some? && !FitsWhole(packet, mtu) && !MtuTooSmall(packet, mtu)
    ensures FirstPayloadSize(packet, mtu) < |Payload(packet)|
    ensures FragCount(packet, mtu) >= 2
  {
    var left := |Payload(packet)| - FirstPayloadSize(packet, mtu);
    CeilStep(left, mtu - MAX_FRAG_OVERHEAD);
  }

  /** The overhead constant covers every field that fragmentation and sequencing add. */
  lemma FragmentFits(packet: LpPacket, i: Seq64, n: Seq64, payload: seq<Byte>, sequence: Option<Seq64>, mtu: nat)
    requires packet.fragIndex.None? && packet.fragCount.None?
    requires MAX_FRAG_OVERHEAD + (if i == 0 then HeaderSize(packet) else 0) + |payload| <= mtu
    ensures Footprint(Fragment(packet, i, n, payload).(sequence := sequence)) <= mtu
  {
    var f := Fragment(packet, i, n, payload);
    var h := if i == 0 then HeaderSize(packet) else 0;
    assert HeaderSize(f.(sequence := sequence)) <= h + 10 + 10 + 10;
  }

  lemma WholeFits(packet: LpPacket, sequence: Option<Seq64>, mtu: nat)
    requires packet.fragment.Some? && FitsWhole(packet, mtu)
    ensures Footprint(packet.(sequence := sequence)) <= mtu
  {
    assert HeaderSize(packet.(sequence := sequence)) <= HeaderSize(packet) + 10;
  }

  /** LpFragmenter::fragmentPacket.  It fails exactly if the MTU is too small for the first
      fragment or the packet needs too many fragments.  Otherwise the packet is returned
      whole, or as a fragmentation of at least two fragments; and every packet returned fits
      the MTU after a Sequence has been added. */
  method FragmentPacket(packet: LpPacket, mtu: nat, nMaxFragments: nat) returns (ok: bool, frags: seq<LpPacket>)
    requires packet.fragment.Some? && packet.fragIndex.None? && packet.fragCount.None?
    requires nMaxFragments < TWO64
    ensures ok <==>
            || FitsWhole(packet, mtu)
            || (!MtuTooSmall(packet, mtu) && FragCount(packet, mtu) <= nMaxFragments)
    ensures ok && FitsWhole(packet, mtu) ==> frags == [packet]
    ensures ok && !FitsWhole(packet, mtu) ==> IsFragmentation(packet, frags) && |frags| <= nMaxFragments
    ensures ok ==> forall i, s :: 0 <= i < |frags| ==> Footprint(frags[i].(sequence := s)) <= mtu
  {
    ok, frags := false, [];
    if FitsWhole(packet, mtu) {
      forall s
        ensures Footprint(packet.(sequence := s)) <= mtu
      {
        WholeFits(packet, s, mtu);
      }
      return true, [packet];
    }
    var netPkt := packet.fragment.value;
    if MtuTooSmall(packet, mtu) {
      return;
    }
    NeedsTwoFragments(packet, mtu);
    var firstPayloadSize := FirstPayloadSize(packet, mtu);
    var payloadSize := mtu - MAX_FRAG_OVERHEAD;
    var fragCount := FragCount(packet, mtu);
    if fragCount > nMaxFragments {
      return;
    }
    frags := Cut(packet, firstPayloadSize, payloadSize, fragCount);
    ok := true;
    forall i, s | 0 <= i < |frags|
      ensures Footprint(frags[i].(sequence := s)) <= mtu
    {
      FragmentFits(packet, i, |frags|, Payload(frags[i]), s, mtu);
    }
  }

  /** The loop of fragmentPacket. */
  method Cut(packet: LpPacket, firstPayloadSize: nat, payloadSize: nat, fragCount: nat)
    returns (frags: seq<LpPacket>)
    requires packet.fragment.Some? && 0 < firstPayloadSize < |packet.fragment.value| && payloadSize > 0
    requires fragCount == 1 + Ceil(|packet.fragment.value| - firstPayloadSize, payloadSize) < TWO64
    ensures IsFragmentation(packet, frags) && |frags| == fragCount
    ensures forall i :: 0 <= i < |frags| ==> |Payload(frags[i])| <= if i == 0 then firstPayloadSize else payloadSize
  {
    var netPkt := packet.fragment.value;
    frags := [];
    var fragBegin, fragEnd := 0, firstPayloadSize;
    CutStart(packet, firstPayloadSize, payloadSize, fragCount);
    hide Cutting, Fragment, IsFragmentation, Payload, Join, Ceil, MinOf;
    while fragBegin < |netPkt|
      invariant 0 <= fragBegin <= fragEnd <= |netPkt|
      invariant Cutting(packet, frags, fragBegin, fragEnd, firstPayloadSize, payloadSize, fragCount)
      decreases |netPkt| - fragBegin
    {
      CutStep(packet, frags, fragBegin, fragEnd, firstPayloadSize, payloadSize, fragCount);
      frags := frags + [Fragment(packet, |frags|, fragCount, netPkt[fragBegin..fragEnd])];
      fragBegin := fragEnd;
      fragEnd := MinOf(fragBegin + payloadSize, |netPkt|);
    }
    CutEnd(packet, frags, fragEnd, firstPayloadSize, payloadSize, fragCount);
  }

  /** The loop invariant: `frags` carry the octets before `fragBegin`, the next fragment ends at
      `fragEnd`, and the fragments still to come are as many as fragCount says. */
  ghost predicate Cutting(packet: LpPacket, frags: seq<LpPacket>, fragBegin: nat, fragEnd: nat, first: nat, later: nat, fragCount: nat)
    requires packet.fragment.Some? && later > 0
  {
    var netPkt := packet.fragment.value;
    && 0 < first < |netPkt| && fragBegin <= fragEnd <= |netPkt| && fragCount < TWO64
    && (if |frags| == 0 then fragBegin == 0 && fragEnd == first else fragEnd == MinOf(fragBegin + later, |netPkt|))
    && fragCount == |frags| + (if |frags| == 0 then 1 + Ceil(|netPkt| - fragEnd, later) else Ceil(|netPkt| - fragBegin, later))
    && Join(frags) == netPkt[..fragBegin]
    && forall i :: 0 <= i < |frags| ==> IsCut(packet, i, fragCount, if i == 0 then first else later, frags[i])
  }

  lemma CutStart(packet: LpPacket, first: nat, later: nat, fragCount: nat)
    requires packet.fragment.Some? && 0 < first < |packet.fragment.value| && later > 0
    requires fragCount == 1 + Ceil(|packet.fragment.value| - first, later) < TWO64
    ensures Cutting(packet, [], 0, first, first, later, fragCount)
  {
  }

  lemma CutStep(packet: LpPacket, frags: seq<LpPacket>, fragBegin: nat, fragEnd: nat, first: nat, later: nat, fragCount: nat)
    requires packet.fragment.Some? && later > 0 && fragBegin < |packet.fragment.value|
    requires Cutting(packet, frags, fragBegin, fragEnd, first, later, fragCount)
    ensures var netPkt := packet.fragment.value;
      && fragBegin < fragEnd <= |netPkt| && |frags| < fragCount < TWO64
      && fragEnd <= MinOf(fragEnd + later, |netPkt|) <= |netPkt|
      && Cutting(packet, frags + [Fragment(packet, |frags|, fragCount, netPkt[fragBegin..fragEnd])],
                 fragEnd, MinOf(fragEnd + later, |netPkt|), first, later, fragCount)
  {
    hide Ceil, IsCut, Fragment, Payload, Join;
    var netPkt := packet.fragment.value;
    CeilStep(|netPkt| - fragBegin, later);
    CeilStep(|netPkt| - fragEnd, later);
    CeilPositive(|netPkt| - fragBegin, later);
    var payload := netPkt[fragBegin..fragEnd];
    var frag := Fragment(packet, |frags|, fragCount, payload);
    CutIsCut(packet, |frags|, fragCount, if |frags| == 0 then first else later, payload);
    JoinAppend(frags, frag);
    assert netPkt[..fragBegin] + payload == netPkt[..fragEnd];
  }

  lemma CutEnd(packet: LpPacket, frags: seq<LpPacket>, fragEnd: nat, first: nat, later: nat, fragCount: nat)
    requires packet.fragment.Some? && later > 0
    requires Cutting(packet, frags, |packet.fragment.value|, fragEnd, first, later, fragCount)
    requires fragCount == 1 + Ceil(|packet.fragment.value| - first, later)
    ensures IsFragmentation(packet, frags) && |frags| == fragCount
    ensures forall i :: 0 <= i < |frags| ==> |Payload(frags[i])| <= if i == 0 then first else later
  {
    hide Ceil, IsCut, Fragment, Payload, Join, IsFragmentation;
    var netPkt := packet.fragment.value;
    CeilStep(0, later);
    CeilPositive(|netPkt| - first, later);
    assert netPkt[..|netPkt|] == netPkt;
    CutsMakeFragmentation(packet, frags, first, later);
  }

  function MinOf(a: nat, b: nat): (m: nat) {
    if a < b then a else b
  }

  ghost predicate IsCut(packet: LpPacket, i: nat, n: nat, maxSize: nat, frag: LpPacket) {
    && i < n < TWO64
    && 0 < |Payload(frag)| <= maxSize
    && frag == Fragment(packet, i, n, Payload(frag))
  }

  lemma CutIsCut(packet: LpPacket, i: nat, n: nat, maxSize: nat, payload: seq<Byte>)
    requires i < n < TWO64 && 0 < |payload| <= maxSize
    ensures Payload(Fragment(packet, i, n, payload)) == payload
    ensures IsCut(packet, i, n, maxSize, Fragment(packet, i, n, payload))
  {
  }

  lemma CutsMakeFragmentation(packet: LpPacket, frags: seq<LpPacket>, first: nat, later: nat)
    requires packet.fragment.Some? && 2 <= |frags| < TWO64 && Join(frags) == packet.fragment.value
    requires forall i :: 0 <= i < |frags| ==> IsCut(packet, i, |frags|, if i == 0 then first else later, frags[i])
    ensures IsFragmentation(packet, frags)
    ensures forall i :: 0 <= i < |frags| ==> |Payload(frags[i])| <= if i == 0 then first else later
  {
  }

  lemma CeilPositive(n: nat, d: nat)
    requires n > 0 && d > 0
    ensures Ceil(n, d) > 0
  {
    CeilStep(n, d);
  }

  lemma JoinAppend(frags: seq<LpPacket>, frag: LpPacket)
    ensures Join(frags + [frag]) == Join(frags) + Payload(frag)
  {
    assert (frags + [frag])[..|frags|] == frags;
  }
}
