/** The send path of GenericLinkService: reserve space, fragment, number, register for
    retransmission, and send within the MTU. */
module LinkServices {
  import opened Basics
  import opened LpPackets
  import opened LpFragmenters
  import AckQueue
  import W = LpWindow
  import R = LpWindowRuns
  import opened LpReliabilities
  import A = LpReassemblers
  import DuplicateFilter

  /** `overrideMtu` and `transportMtu` may be MTU_UNLIMITED. */
  datatype LinkOptions = LinkOptions(
    reliable: bool,
    allowFragmentation: bool,
    allowReassembly: bool,
    allowCongestionMarking: bool,
    nMaxFragments: nat,
    overrideMtu: int,
    transportMtu: int)

  const MARK_RESERVE: nat := 3 + 1 + 8

  /** getEffectiveMtu: being negative, MTU_UNLIMITED wins over any finite override. */
  function EffectiveMtu(o: LinkOptions): (m: int) {
    if o.overrideMtu < o.transportMtu then o.overrideMtu else o.transportMtu
  }

  /** The MTU left for the fragmenter after reservations.  Each reservation is made only if
      the value so far is not MTU_UNLIMITED. */
  function SendMtu(o: LinkOptions): (m: int) {
    var m0 := EffectiveMtu(o);
    var m1 := if o.reliable && m0 != MTU_UNLIMITED then m0 - TX_SEQUENCE_SIZE else m0;
    if o.allowCongestionMarking && m1 != MTU_UNLIMITED then m1 - MARK_RESERVE else m1
  }

  predicate Fragments(o: LinkOptions) {
    o.allowFragmentation && SendMtu(o) != MTU_UNLIMITED
  }

  /** The MTU left is "unlimited" if there is no MTU, but also if a finite MTU is smaller than
      a reservation by exactly one octet. */
  lemma UnlimitedAfterReservation(o: LinkOptions)
    ensures SendMtu(o) == MTU_UNLIMITED <==>
            || EffectiveMtu(o) == MTU_UNLIMITED
            || (EffectiveMtu(o) == 11 && (o.reliable || o.allowCongestionMarking))
            || (EffectiveMtu(o) == 23 && o.reliable && o.allowCongestionMarking)
  {
  }

  /** What sendNetPacket asserts about the MTU left after reservations. */
  predicate BudgetHolds(o: LinkOptions) {
    SendMtu(o) == MTU_UNLIMITED || SendMtu(o) >= 0
  }

  /** The assertion holds exactly if the effective MTU covers the reservations, or happens to turn
      into MTU_UNLIMITED. */
  lemma BudgetHoldsIff(o: LinkOptions)
    ensures var m := EffectiveMtu(o);
      var reserved := (if o.reliable then TX_SEQUENCE_SIZE else 0) + (if o.allowCongestionMarking then MARK_RESERVE else 0);
      BudgetHolds(o) <==>
        || m == MTU_UNLIMITED || m >= reserved
        || (m == 11 && (o.reliable || o.allowCongestionMarking))
        || (m == 23 && o.reliable && o.allowCongestionMarking)
  {
  }

  /** An MTU of 0 is meant to be allowed, but fails the assertion if space is reserved. */
  lemma ZeroMtuFailsAssertion(o: LinkOptions)
    requires EffectiveMtu(o) == 0
    ensures BudgetHolds(o) <==> !o.reliable && !o.allowCongestionMarking
  {
    BudgetHoldsIff(o);
  }

  /** The fragmenter takes its MTU as a size_t. */
  function SizeT(m: int): (r: nat) {
    if m >= 0 then m else m % TWO64
  }

  /** If assertions are compiled out, a failing budget becomes a huge MTU, and any packet is
      passed on whole. */
  lemma FailedBudgetIsHuge(o: LinkOptions, p: LpPacket)
    requires !BudgetHolds(o) && EffectiveMtu(o) >= 0 && WireSize(p) < TWO64 - 100
    ensures FitsWhole(p, SizeT(SendMtu(o)))
  {
    assert SendMtu(o) % TWO64 == SendMtu(o) + TWO64;
  }

  /** With reliability such a packet is then over the effective MTU. */
  lemma FailedBudgetDrops(o: LinkOptions, p: LpPacket)
    requires !BudgetHolds(o) && o.reliable
    requires p.sequence.Some? && p.txSequence.Some? && p.fragment.Some?
    ensures OverMtu(p, EffectiveMtu(o))
  {
    BudgetHoldsIff(o);
    assert WireSize(p) >= 1 + 1 + SEQUENCE_SIZE + TX_SEQUENCE_SIZE + 2;
  }

  /** What the network layer hands over: a Fragment and no link-layer numbering. */
  predicate IsNetworkPacket(p: LpPacket) {
    && p.fragment.Some? && p.fragIndex.None? && p.fragCount.None?
    && p.sequence.None? && p.txSequence.None? && p.acks == []
  }

  predicate Fragmentable(p: LpPacket, mtu: nat, nMaxFragments: nat) {
    FitsWhole(p, mtu) || (!MtuTooSmall(p, mtu) && FragCount(p, mtu) <= nMaxFragments)
  }

  /** The Sequence of fragment `i`: assigned if reliability is on or there are several. */
  ghost predicate Numbered(o: LinkOptions, last: Seq64, frags: seq<LpPacket>, i: nat, p: LpPacket)
    requires i < |frags| < TWO64
  {
    p == if o.reliable || |frags| > 1 then frags[i].(sequence := Some(Plus(last, i + 1))) else frags[i]
  }

  /** `p` is fragment `i`, numbered, as it leaves for the transport. */
  ghost predicate Emitted(o: LinkOptions, last: Seq64, frags: seq<LpPacket>, i: nat, p: LpPacket)
    requires i < |frags| < TWO64
  {
    && (exists q :: Numbered(o, last, frags, i, q) && InTransit(q, p))
    && (o.reliable ==> p.txSequence.Some?)
    && !OverMtu(p, EffectiveMtu(o))
  }

  /** What arrives of `frag`: the link may set TxSequence, acks and a congestion mark. */
  predicate InTransit(frag: LpPacket, p: LpPacket) {
    p == frag.(txSequence := p.txSequence, acks := p.acks, congestionMark := p.congestionMark)
  }

  /** Within the MTU whether or not a congestion mark is added. */
  predicate FitsMarked(p: LpPacket, o: LinkOptions) {
    && !OverMtu(p, EffectiveMtu(o))
    && (o.allowCongestionMarking ==> !OverMtu(Marked(p, true), EffectiveMtu(o)))
  }

  /** The reservations cover what sendNetPacket adds after fragmentation. */
  lemma ReservedSpaceSuffices(o: LinkOptions, frag: LpPacket, tx: Option<Seq64>, congested: bool)
    requires SendMtu(o) >= 0 && Footprint(frag) <= SendMtu(o)
    requires tx.Some? ==> o.reliable
    requires congested ==> o.allowCongestionMarking
    ensures var p := Marked(if tx.Some? then frag.(txSequence := tx) else frag, congested);
            Footprint(p) <= EffectiveMtu(o) && !OverMtu(p, EffectiveMtu(o))
  {
    var t := if tx.Some? then frag.(txSequence := tx) else frag;
    assert HeaderSize(t) <= HeaderSize(frag) + if o.reliable then 12 else 0;
    var p := Marked(t, congested);
    assert IntFieldSize(3, Some(1)) == 5;
    assert HeaderSize(p) <= HeaderSize(t) + if congested then 5 else 0;
  }

  /** The link has the effective MTU of the options and marks packets only if that is allowed. */
  ghost predicate Matches(link: AckQueue.Link, o: LinkOptions) {
    forall i :: link.mtu(i) == EffectiveMtu(o) && (link.congested(i) ==> o.allowCongestionMarking)
  }

  class GenericLinkService {
    const options: LinkOptions
    /** Whether assertions are compiled in. */
    const assertions: bool
    const reliability: LpReliability
    const reassembler: A.LpReassembler

    var lastSeqNo: Seq64
    var nFragmentationErrors: nat
    var nDuplicateSequence: nat

    /** nOutOverMtu counts retransmissions too. */
    function NOutOverMtu(): (n: nat)
      reads reliability
    {
      |AckQueue.DroppedOf(reliability.attempts)|
    }

    ghost predicate Valid()
      reads this, reliability, reassembler
    {
      && options.nMaxFragments < TWO64
      && reassembler.Valid()
      && Matches(reliability.options.link, options)
      && reliability.Valid()
    }

    /** m_lastSeqNo starts at -2, so that numbering wraps around with the second packet.
        `congested` says for each packet whether the send queue asks for a mark. */
    constructor (options: LinkOptions, assertions: bool, maxRetx: nat, seqNumLossThreshold: nat, reassembly: A.Options,
                 congested: nat -> bool)
      requires options.nMaxFragments < TWO64
      ensures this.options == options && this.assertions == assertions && Valid() && fresh(reliability) && fresh(reassembler)
      ensures lastSeqNo == TWO64 - 2 && reliability.attempts == []
      ensures nFragmentationErrors == 0 && nDuplicateSequence == 0
      ensures reliability.State() == W.Initial(reliability.options.link) && reassembler.partialPackets == map[]
    {
      this.options := options;
      this.assertions := assertions;
      var link := AckQueue.Link(_ => EffectiveMtu(options), (i: nat) => options.allowCongestionMarking && congested(i));
      reliability := new LpReliability(W.Options(maxRetx, seqNumLossThreshold, link));
      reassembler := new A.LpReassembler(reassembly);
      lastSeqNo := TWO64 - 2;
      nFragmentationErrors, nDuplicateSequence := 0, 0;
    }

    /** assignSequences: consecutive numbers, wrapping at 2^64. */
    method AssignSequences(pkts: seq<LpPacket>) returns (r: seq<LpPacket>)
      requires |pkts| < TWO64
      modifies this`lastSeqNo
      ensures |r| == |pkts| && lastSeqNo == Plus(old(lastSeqNo), |pkts|)
      ensures forall i :: 0 <= i < |r| ==> r[i] == pkts[i].(sequence := Some(Plus(old(lastSeqNo), i + 1)))
    {
      r := [];
      while |r| < |pkts|
        invariant |r| <= |pkts| && lastSeqNo == Plus(old(lastSeqNo), |r|)
        invariant forall i :: 0 <= i < |r| ==> r[i] == pkts[i].(sequence := Some(Plus(old(lastSeqNo), i + 1)))
        decreases |pkts| - |r|
      {
        lastSeqNo := Plus(lastSeqNo, 1);
        r := r + [pkts[|r|].(sequence := Some(lastSeqNo))];
      }
    }

    /** sendLpPacket. */
    method SendLpPacket(pkt: LpPacket)
      requires Valid() && pkt.acks == [] && (options.reliable ==> !IsBare(pkt))
      modifies reliability`ackQueue, reliability`attempts
      ensures Valid()
      ensures reliability.Acks() == if options.reliable
                                    then AckQueue.Transmit(old(reliability.Acks()), pkt)
                                    else AckQueue.Pass(old(reliability.Acks()), pkt)
    {
      hide R.Good, IsBare, Matches, AckQueue.Transmit, AckQueue.Pass;
      R.TransmitKeepsGood(reliability.State(), pkt, reliability.options.maxRetx);
      reliability.SendLpPacket(pkt, options.reliable);
    }

    /** One packet is passed to the transport or dropped; with no acks waiting it is passed if
        it fits. */
    method SendOne(frag: LpPacket) returns (ghost t: AckQueue.Attempt)
      requires Valid() && frag.acks == [] && (options.reliable ==> frag.txSequence.Some?)
      modifies reliability`ackQueue, reliability`attempts
      ensures Valid() && reliability.attempts == old(reliability.attempts) + [t]
      ensures t.packet == frag && (t.passed <==> !OverMtu(AckQueue.Final(t), EffectiveMtu(options)))
      ensures NOutOverMtu() == old(NOutOverMtu()) + if t.passed then 0 else 1
      ensures (options.reliable ==> old(reliability.ackQueue) == []) ==>
        && (options.reliable ==> reliability.ackQueue == [])
        && (FitsMarked(frag, options) ==> t.passed)
    {
      hide R.Good, WireSize, EffectiveMtu;
      ghost var i := |reliability.attempts|;
      assert Matches(reliability.options.link, options);
      assert reliability.options.link.mtu(i) == EffectiveMtu(options);
      if options.reliable {
        CarriesTxSequence(frag);
        NoAcksNoChange(frag, EffectiveMtu(options));
      }
      SendLpPacket(frag);
      t := reliability.attempts[i];
      assert frag.acks + [] == [];
    }

    /** The sending loop of sendNetPacket.  Every packet is tried in order; with no acks waiting,
        packets within the reserved space are all passed to the transport. */
    method SendAll(frags: seq<LpPacket>) returns (ghost out: seq<AckQueue.Attempt>)
      requires Valid()
      requires forall i :: 0 <= i < |frags| ==> frags[i].acks == [] && (options.reliable ==> frags[i].txSequence.Some?)
      modifies reliability`ackQueue, reliability`attempts
      ensures Valid() && reliability.attempts == old(reliability.attempts) + out && |out| == |frags|
      ensures forall i :: 0 <= i < |out| ==>
                out[i].packet == frags[i] && (out[i].passed <==> !OverMtu(AckQueue.Final(out[i]), EffectiveMtu(options)))
      ensures (options.reliable ==> old(reliability.ackQueue) == [])
              && (forall i :: 0 <= i < |frags| ==> FitsMarked(frags[i], options)) ==>
                forall i :: 0 <= i < |out| ==> out[i].passed
    {
      hide R.Good, WireSize, FitsMarked, EffectiveMtu, Matches, OverMtu, AckQueue.Final, AckQueue.DroppedOf;
      ghost var calm := (options.reliable ==> reliability.ackQueue == [])
                        && (forall i :: 0 <= i < |frags| ==> FitsMarked(frags[i], options));
      var i := 0;
      out := [];
      while i < |frags|
        invariant 0 <= i <= |frags| && Valid() && reliability.attempts == old(reliability.attempts) + out && |out| == i
        invariant calm && options.reliable ==> reliability.ackQueue == []
        invariant forall j :: 0 <= j < i ==>
                    out[j].packet == frags[j] && (out[j].passed <==> !OverMtu(AckQueue.Final(out[j]), EffectiveMtu(options)))
        invariant calm ==> forall j :: 0 <= j < i ==> out[j].passed
      {
        ghost var t := SendOne(frags[i]);
        out := out + [t];
        i := i + 1;
      }
    }

    /** The first half of sendNetPacket: fragment and number. */
    method Prepare(pkt: LpPacket) returns (ok: bool, ghost frags: seq<LpPacket>, numbered: seq<LpPacket>)
      requires IsNetworkPacket(pkt)
      requires options.nMaxFragments < TWO64
      modifies this`lastSeqNo, this`nFragmentationErrors
      ensures ok <==> (Fragments(options) ==> Fragmentable(pkt, SizeT(SendMtu(options)), options.nMaxFragments))
      ensures !Fragments(options) ==> frags == [pkt]
      ensures !ok ==> nFragmentationErrors == old(nFragmentationErrors) + 1 && lastSeqNo == old(lastSeqNo)
      ensures ok ==> nFragmentationErrors == old(nFragmentationErrors)
      ensures ok ==> (frags == [pkt] || IsFragmentation(pkt, frags)) && |numbered| == |frags| < TWO64
      ensures ok ==> forall i :: 0 <= i < |frags| ==>
                && Numbered(options, old(lastSeqNo), frags, i, numbered[i])
                && (Fragments(options) ==> Footprint(numbered[i]) <= SizeT(SendMtu(options)))
      ensures ok ==> lastSeqNo == if options.reliable || |frags| > 1 then Plus(old(lastSeqNo), |frags|) else old(lastSeqNo)
    {
      var fs;
      if Fragments(options) {
        ok, fs := FragmentPacket(pkt, SizeT(SendMtu(options)), options.nMaxFragments);
      } else {
        ok, fs := true, [pkt];
      }
      frags, numbered := fs, fs;
      hide Footprint, IsFragmentation, FragCount, FitsWhole, MtuTooSmall;
      if !ok {
        nFragmentationErrors := nFragmentationErrors + 1;
        return;
      }
      FewFragments(pkt, fs);
      if options.reliable || |fs| > 1 {
        numbered := AssignSequences(fs);
      } else {
        assert fs[0] == fs[0].(sequence := fs[0].sequence);
      }
    }

    /** sendNetPacket.  `frags` are the fragments it sends, or the packet itself, and `out`
        the attempts to send them.

        The assertion on the MTU fails exactly if the budget does not hold.  Otherwise every
        fragment is tried in order, and those passed to the transport carry their consecutive
        Sequence and fit the effective MTU.  With fragmentation at work, the budget kept and no
        acks waiting, the over-MTU drop is never taken; with reliability and a failed budget it
        always is. */
    method SendNetPacket(pkt: LpPacket, isInterest: bool)
      returns (failed: bool, threw: bool, ok: bool, ghost frags: seq<LpPacket>, ghost out: seq<AckQueue.Attempt>)
      requires Valid() && IsNetworkPacket(pkt)
      modifies this, reliability
      ensures failed <==> assertions && !BudgetHolds(options)
      ensures failed ==> !ok && !threw && nFragmentationErrors == old(nFragmentationErrors)
      ensures !threw ==> Valid()
      ensures !failed ==> (ok <==> (Fragments(options) ==> Fragmentable(pkt, SizeT(SendMtu(options)), options.nMaxFragments)))
      ensures !failed ==> nFragmentationErrors == old(nFragmentationErrors) + if ok then 0 else 1
      ensures reliability.attempts == old(reliability.attempts) + out
      ensures threw ==> options.reliable && ok
      ensures !ok || threw ==> out == []
      ensures !ok ==> lastSeqNo == old(lastSeqNo)
      ensures ok ==> 1 <= |frags| < TWO64 && (frags == [pkt] || (Fragments(options) && IsFragmentation(pkt, frags)))
      ensures ok ==> lastSeqNo == if options.reliable || |frags| > 1 then Plus(old(lastSeqNo), |frags|) else old(lastSeqNo)
      ensures ok && !threw ==> |out| == |frags|
      ensures ok && !threw ==> forall i :: 0 <= i < |out| ==>
                (out[i].passed ==> Emitted(options, old(lastSeqNo), frags, i, AckQueue.Final(out[i])))
      ensures ok && !threw && Fragments(options) && BudgetHolds(options)
              && (options.reliable ==> old(reliability.ackQueue) == []) ==>
                forall i :: 0 <= i < |out| ==> out[i].passed
      ensures !BudgetHolds(options) && options.reliable ==> forall i :: 0 <= i < |out| ==> !out[i].passed
    {
      hide R.Good, IsFragmentation, FragCount, FitsWhole, MtuTooSmall, WireSize, Footprint;
      failed, threw, ok, frags, out := false, false, false, [], [];
      if assertions && !BudgetHolds(options) {
        return true, false, false, [], [];
      }
      var numbered;
      ok, frags, numbered := Prepare(pkt);
      if !ok {
        return;
      }
      FewFragments(pkt, frags);
      NumberedAreHandable(pkt, options, old(lastSeqNo), frags, numbered);
      var final := numbered;
      if options.reliable {
        threw, final := reliability.HandleOutgoing(numbered, pkt, isInterest);
        if threw {
          return;
        }
      }
      out := SendAll(final);
      AllEmitted(options, old(lastSeqNo), frags, numbered, final, out);
      if Fragments(options) && BudgetHolds(options) && (options.reliable ==> old(reliability.ackQueue) == []) {
        AllFit(options, numbered, final);
      }
      if options.reliable && !BudgetHolds(options) {
        NoneFits(options, old(lastSeqNo), pkt, frags, out);
      }
    }

    /** Whether doReceivePacket passes the packet to the reassembler. */
    ghost predicate ReachesReassembler(pkt: LpPacket)
      reads this, reliability
    {
      && pkt.fragment.Some?
      && (pkt.fragIndex.Some? || pkt.fragCount.Some? ==> options.allowReassembly)
      && !(options.reliable && pkt.txSequence.Some? && pkt.sequence.Some?
           && DuplicateFilter.IsDuplicate(reliability.recentRecvSeqs, pkt.sequence.value))
    }

    /** doReceivePacket.  A duplicate, an IDLE packet, or a fragment while reassembly is
        disabled never reaches the reassembler. */
    method DoReceivePacket(pkt: LpPacket, endpoint: nat, now: nat, rto: nat) returns (threw: bool, outcome: A.Outcome)
      requires Valid()
      modifies this, reliability, reassembler
      ensures !threw ==> Valid()
      ensures threw ==> options.reliable
      ensures !threw ==>
                (reassembler.partialPackets, outcome) ==
                if old(ReachesReassembler(pkt))
                then A.Receive(old(reassembler.partialPackets), endpoint, pkt, reassembler.options)
                else (old(reassembler.partialPackets), A.Incomplete)
      ensures !threw ==>
                nDuplicateSequence == old(nDuplicateSequence) +
                if options.reliable && pkt.fragment.Some? && pkt.txSequence.Some? && pkt.sequence.Some?
                   && DuplicateFilter.IsDuplicate(old(reliability.recentRecvSeqs), pkt.sequence.value)
                then 1 else 0
      ensures lastSeqNo == old(lastSeqNo)
    {
      hide R.Good;
      outcome, threw := A.Incomplete, false;
      if options.reliable {
        var isNew;
        threw, isNew := reliability.ProcessIncomingPacket(pkt, now, rto);
        if threw {
          return;
        }
        if !isNew {
          nDuplicateSequence := nDuplicateSequence + 1;
          return;
        }
      }
      if pkt.fragment.None? {
        return;
      }
      if (pkt.fragIndex.Some? || pkt.fragCount.Some?) && !options.allowReassembly {
        return;
      }
      outcome := reassembler.ReceiveFragment(endpoint, pkt);
    }
  }

  lemma FewFragments(pkt: LpPacket, frags: seq<LpPacket>)
    requires frags == [pkt] || IsFragmentation(pkt, frags)
    ensures 1 <= |frags| < TWO64
  {
  }

  lemma NumberedAreHandable(pkt: LpPacket, o: LinkOptions, last: Seq64, frags: seq<LpPacket>, numbered: seq<LpPacket>)
    requires IsNetworkPacket(pkt) && (frags == [pkt] || IsFragmentation(pkt, frags))
    requires |numbered| == |frags| < TWO64
    requires forall i :: 0 <= i < |frags| ==> Numbered(o, last, frags, i, numbered[i])
    ensures o.reliable ==> R.Handable(numbered)
    ensures forall i :: 0 <= i < |numbered| ==> numbered[i].acks == []
  {
    hide Join;
    FewFragments(pkt, frags);
    forall i | 0 <= i < |numbered|
      ensures (o.reliable ==> numbered[i].sequence.Some?) && numbered[i].acks == []
    {
      assert Numbered(o, last, frags, i, numbered[i]);
      assert frags[i].acks == [];
    }
  }

  lemma AllFit(o: LinkOptions, numbered: seq<LpPacket>, final: seq<LpPacket>)
    requires |numbered| == |final| && SendMtu(o) >= 0
    requires forall i :: 0 <= i < |numbered| ==> Footprint(numbered[i]) <= SendMtu(o)
    requires if o.reliable then forall i :: 0 <= i < |final| ==> Sequenced(numbered[i], final[i]) else final == numbered
    ensures forall i :: 0 <= i < |final| ==> FitsMarked(final[i], o)
  {
    hide WireSize, SendMtu, EffectiveMtu;
    forall i | 0 <= i < |final|
      ensures FitsMarked(final[i], o)
    {
      var tx := if o.reliable then final[i].txSequence else None;
      ReservedSpaceSuffices(o, numbered[i], tx, false);
      if o.allowCongestionMarking {
        ReservedSpaceSuffices(o, numbered[i], tx, true);
      }
    }
  }

  lemma NoneFits(o: LinkOptions, last: Seq64, pkt: LpPacket, frags: seq<LpPacket>, out: seq<AckQueue.Attempt>)
    requires o.reliable && !BudgetHolds(o) && |frags| == |out| < TWO64
    requires pkt.fragment.Some? && (frags == [pkt] || IsFragmentation(pkt, frags))
    requires forall i :: 0 <= i < |out| ==> (out[i].passed ==> Emitted(o, last, frags, i, AckQueue.Final(out[i])))
    ensures forall i :: 0 <= i < |out| ==> !out[i].passed
  {
    hide WireSize, EffectiveMtu, BudgetHolds;
    forall i | 0 <= i < |out|
      ensures !out[i].passed
    {
      if out[i].passed {
        FailedBudgetDrops(o, AckQueue.Final(out[i]));
        assert false;
      }
    }
  }

  lemma AllEmitted(o: LinkOptions, last: Seq64, frags: seq<LpPacket>, numbered: seq<LpPacket>,
                   final: seq<LpPacket>, out: seq<AckQueue.Attempt>)
    requires |numbered| == |frags| == |final| == |out| < TWO64
    requires forall i :: 0 <= i < |frags| ==> Numbered(o, last, frags, i, numbered[i])
    requires if o.reliable then forall i :: 0 <= i < |final| ==> Sequenced(numbered[i], final[i]) else final == numbered
    requires forall i :: 0 <= i < |out| ==>
               out[i].packet == final[i] && (out[i].passed <==> !OverMtu(AckQueue.Final(out[i]), EffectiveMtu(o)))
    ensures forall i :: 0 <= i < |out| ==> (out[i].passed ==> Emitted(o, last, frags, i, AckQueue.Final(out[i])))
  {
    hide WireSize, EffectiveMtu;
    forall i | 0 <= i < |out|
      ensures out[i].passed ==> Emitted(o, last, frags, i, AckQueue.Final(out[i]))
    {
      assert Numbered(o, last, frags, i, numbered[i]) && InTransit(numbered[i], AckQueue.Final(out[i]));
    }
  }

  lemma NoAcksNoChange(pkt: LpPacket, mtu: int)
    ensures AckQueue.Attached(pkt, [], mtu) == 0
    ensures AckQueue.WithAcks(pkt, [], mtu) == pkt
  {
    assert pkt.acks + [] == pkt.acks;
  }
}
