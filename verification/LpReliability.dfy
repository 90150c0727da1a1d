/** LpReliability as the mutable object it is: each method is proved to change the object
    exactly as the corresponding operation of LpWindow changes the window. */
module LpReliabilities {
  import opened Basics
  import opened LpPackets
  import opened TxRing
  import AckQueue
  import W = LpWindow
  import I = LpWindowInvariants
  import R = LpWindowRuns
  import DuplicateFilter

  /** `r` is `frag` with a TxSequence. */
  predicate Sequenced(frag: LpPacket, r: LpPacket) {
    r.txSequence.Some? && r == frag.(txSequence := r.txSequence)
  }

  class LpReliability {
    const options: W.Options

    var unackedFrags: map<Seq64, W.UnackedFrag>
    var firstUnackedFrag: Option<Seq64>
    var lastTxSeqNo: Seq64
    var netPkts: map<nat, W.NetPkt>
    var ackQueue: seq<Seq64>
    var recentRecvSeqs: DuplicateFilter.Filter

    // counters of the link service
    var nHanded: nat
    var nAcknowledged: nat
    var nRetransmitted: nat
    var nRetxExhausted: nat

    // history
    ghost var sends: multiset<(nat, nat)>
    ghost var dropped: seq<nat>
    ghost var acksQueued: seq<Seq64>

    // the calls of sendLpPacket, which number the packets for `options.link`
    var attempts: seq<AckQueue.Attempt>

    ghost function Acks(): (a: AckQueue.AckState)
      reads this
    {
      AckQueue.AckState(options.link, ackQueue, acksQueued, attempts)
    }

    ghost function State(): (w: W.Window)
      reads this
    {
      W.Window(unackedFrags, firstUnackedFrag, lastTxSeqNo, netPkts, nHanded,
               nAcknowledged, nRetransmitted, nRetxExhausted, sends, dropped, Acks())
    }

    ghost predicate Valid()
      reads this
    {
      R.Good(State(), options.maxRetx)
    }

    constructor (options: W.Options)
      ensures this.options == options
      ensures State() == W.Initial(options.link) && Valid()
      ensures recentRecvSeqs == DuplicateFilter.EMPTY
    {
      this.options := options;
      unackedFrags, firstUnackedFrag, lastTxSeqNo := map[], None, TWO64 - 1;
      netPkts := map[];
      ackQueue := [];
      recentRecvSeqs := DuplicateFilter.EMPTY;
      nHanded, nAcknowledged, nRetransmitted, nRetxExhausted := 0, 0, 0, 0;
      sends, dropped, acksQueued, attempts := multiset{}, [], [], [];
      new;
      R.InitialIsGood(options.link, options.maxRetx);
    }

    /** assignTxSequence; `threw` stands for std::length_error. */
    method AssignTxSequence(frag: LpPacket) returns (threw: bool, r: LpPacket, txSeq: Seq64)
      modifies this`lastTxSeqNo
      ensures txSeq == lastTxSeqNo == Plus(old(lastTxSeqNo), 1)
      ensures r == frag.(txSequence := Some(txSeq))
      ensures threw <==> old(W.RangeExceeded(State()))
    {
      lastTxSeqNo := Plus(lastTxSeqNo, 1);
      txSeq := lastTxSeqNo;
      r := frag.(txSequence := Some(txSeq));
      threw := unackedFrags != map[] && firstUnackedFrag == Some(lastTxSeqNo);
    }

    /** One iteration of handleOutgoing. */
    method AddOutgoing(p: nat, slot: nat, frag: LpPacket) returns (threw: bool, r: LpPacket)
      requires W.ArcInv(State()) && p in netPkts
      modifies this`unackedFrags, this`firstUnackedFrag, this`lastTxSeqNo, this`netPkts, this`sends
      ensures threw <==> W.AddFrag(old(State()), p, slot, frag).None?
      ensures !threw ==> Some(State()) == W.AddFrag(old(State()), p, slot, frag)
      ensures Sequenced(frag, r)
    {
      ghost var w := State();
      hide W.ArcInv, W.RangeExceeded;
      var txSeq;
      threw, r, txSeq := AssignTxSequence(frag);
      if threw {
        return;
      }
      I.NextTxIsFresh(w);
      unackedFrags := unackedFrags[txSeq := W.UnackedFrag(r, 0, 0, p, slot)];
      SizeOneMeansFirst(w.frags, txSeq, unackedFrags[txSeq]);
      if |unackedFrags| == 1 {
        firstUnackedFrag := Some(txSeq);
      }
      netPkts := netPkts[p := netPkts[p].(unackedFrags := netPkts[p].unackedFrags + [txSeq])];
      sends := sends + multiset{(p, slot)};
    }

    /** The loop of handleOutgoing. */
    method AddAllOutgoing(p: nat, frags: seq<LpPacket>) returns (threw: bool, r: seq<LpPacket>)
      requires W.ArcInv(State()) && p in netPkts
      modifies this`unackedFrags, this`firstUnackedFrag, this`lastTxSeqNo, this`netPkts, this`sends
      ensures threw <==> W.AddFrags(old(State()), p, 0, frags).None?
      ensures !threw ==> Some(State()) == W.AddFrags(old(State()), p, 0, frags)
      ensures !threw ==> |r| == |frags| && forall i :: 0 <= i < |r| ==> Sequenced(frags[i], r[i])
    {
      hide W.ArcInv, W.AddFrags, W.AddFrag, Sequenced;
      ghost var w0 := State();
      r := [];
      threw := false;
      var slot := 0;
      assert frags[0..] == frags;
      while slot < |frags|
        invariant 0 <= slot <= |frags| && |r| == slot
        invariant p in netPkts && W.ArcInv(State())
        invariant W.AddFrags(State(), p, slot, frags[slot..]) == W.AddFrags(w0, p, 0, frags)
        invariant forall i :: 0 <= i < slot ==> Sequenced(frags[i], r[i])
      {
        ghost var w := State();
        AddFragsStep(w, p, slot, frags);
        var frag;
        threw, frag := AddOutgoing(p, slot, frags[slot]);
        if threw {
          return;
        }
        I.AddFragArc(w, p, slot, frags[slot]);
        r := r + [frag];
        slot := slot + 1;
      }
      assert frags[slot..] == [];
      AddFragsNone(State(), p, slot);
    }

    /** handleOutgoing.  The fragments come back with their TxSequences. */
    method HandleOutgoing(frags: seq<LpPacket>, pkt: LpPacket, isInterest: bool)
      returns (threw: bool, r: seq<LpPacket>)
      requires Valid() && R.Handable(frags)
      modifies this`unackedFrags, this`firstUnackedFrag, this`lastTxSeqNo, this`netPkts, this`nHanded, this`sends
      ensures threw <==> W.HandleOutgoing(old(State()), frags, pkt, isInterest).None?
      ensures !threw ==> Some(State()) == W.HandleOutgoing(old(State()), frags, pkt, isInterest) && Valid()
      ensures !threw ==> |r| == |frags| && forall i :: 0 <= i < |r| ==> Sequenced(frags[i], r[i])
    {
      hide R.Good;
      R.HandleOutgoingKeepsGood(State(), frags, pkt, isInterest, options.maxRetx);
      R.GoodIsSound(State(), options.maxRetx);
      var p := nHanded;
      netPkts := netPkts[p := W.NetPkt([], pkt, isInterest, false)];
      nHanded := nHanded + 1;
      threw, r := AddAllOutgoing(p, frags);
    }

    /** deleteUnackedFrag. */
    method DeleteUnackedFrag(k: Seq64)
      requires k in unackedFrags && firstUnackedFrag.Some?
      modifies this`unackedFrags, this`firstUnackedFrag
      ensures unackedFrags == old(unackedFrags) - {k}
      ensures firstUnackedFrag == FirstAfterErase(old(unackedFrags).Keys, old(firstUnackedFrag), k)
    {
      var firstUnackedTxSeq := firstUnackedFrag.value;
      unackedFrags := unackedFrags - {k};
      assert unackedFrags.Keys == old(unackedFrags.Keys) - {k};
      if unackedFrags != map[] && firstUnackedTxSeq == k {
        firstUnackedFrag := Some(NextKey(unackedFrags.Keys, k));
      } else if unackedFrags == map[] {
        firstUnackedFrag := None;
      }
    }

    /** findLostLpPackets. */
    method FindLostLpPackets(ack: Seq64) returns (lost: seq<Seq64>)
      requires W.ArcInv(State()) && ack in unackedFrags
      modifies this`unackedFrags
      ensures forall k :: k in W.Older(old(State()), ack) ==> k in old(unackedFrags)
      ensures unackedFrags == W.Bump(old(unackedFrags), W.Older(old(State()), ack))
      ensures lost == W.Lost(old(unackedFrags), W.Older(old(State()), ack), options.seqNumLossThreshold)
    {
      OlderFacts(State(), ack);
      var first := firstUnackedFrag.value;
      ghost var frags := unackedFrags;
      ghost var older := Walk(frags.Keys, first, ack);
      ghost var i := 0;
      var it := first;
      lost := [];
      BumpNone(frags);
      while it != ack
        invariant it in frags && i <= |older|
        invariant older[i..] == Walk(frags.Keys, it, ack)
        invariant unackedFrags == W.Bump(frags, older[..i])
        invariant lost == W.Lost(frags, older[..i], options.seqNumLossThreshold)
        decreases Dist(it, ack)
      {
        hide W.Bump, W.Lost, Walk, NextKey;
        WalkStep(frags.Keys, it, ack);
        NextKeyApproaches(frags.Keys, it, ack);
        assert older[i] == older[i..][0] == it;
        assert older[i + 1..] == older[i..][1..];
        LostOneMore(frags, older, i, options.seqNumLossThreshold);
        BumpOneMore(frags, older, i);
        var frag := W.BumpFrag(unackedFrags[it]);
        unackedFrags := unackedFrags[it := frag];
        if frag.nGreaterSeqAcks >= options.seqNumLossThreshold {
          lost := lost + [it];
        }
        it := NextKey(unackedFrags.Keys, it);
        i := i + 1;
      }
      assert older[..i] == older;
    }

    /** onLpPacketAcknowledged. */
    method OnLpPacketAcknowledged(k: Seq64)
      requires firstUnackedFrag.Some? && k in unackedFrags && unackedFrags[k].netPkt in netPkts
      requires k in netPkts[unackedFrags[k].netPkt].unackedFrags
      modifies this`unackedFrags, this`firstUnackedFrag, this`netPkts, this`nAcknowledged, this`nRetransmitted
      ensures State() == W.Acknowledge(old(State()), k)
    {
      hide FirstAfterErase, W.IndexOf;
      var p := unackedFrags[k].netPkt;
      var netPkt := netPkts[p];
      var i := W.IndexOf(netPkt.unackedFrags, k);
      var n := |netPkt.unackedFrags|;
      netPkt := netPkt.(unackedFrags := netPkt.unackedFrags[i := netPkt.unackedFrags[n - 1]]);
      netPkt := netPkt.(unackedFrags := netPkt.unackedFrags[..n - 1]);
      if netPkt.unackedFrags == [] {
        if netPkt.didRetx {
          nRetransmitted := nRetransmitted + 1;
        } else {
          nAcknowledged := nAcknowledged + 1;
        }
        netPkts := netPkts - {p};
      } else {
        netPkts := netPkts[p := netPkt];
      }
      DeleteUnackedFrag(k);
    }

    /** GenericLinkService::sendLpPacket: acks if reliability is enabled, then the congestion
        mark, then the MTU check. */
    method SendLpPacket(pkt: LpPacket, enabled: bool)
      requires enabled ==> !IsBare(pkt)
      modifies this`ackQueue, this`attempts
      ensures Acks() == if enabled then AckQueue.Transmit(old(Acks()), pkt) else AckQueue.Pass(old(Acks()), pkt)
    {
      hide IsBare, WireSize, AckQueue.AckRoom, AckQueue.AckCount;
      var mtu := options.link.mtu(|attempts|);
      var p, acks := pkt, [];
      if enabled {
        p, ackQueue := AckQueue.Piggyback(p, ackQueue, mtu);
        acks := p.acks[|pkt.acks|..];
        assert acks == old(ackQueue)[..AckQueue.Attached(pkt, old(ackQueue), mtu)];
      } else {
        assert pkt.acks + acks == pkt.acks;
      }
      var marked := options.link.congested(|attempts|);
      p := Marked(p, marked);
      attempts := attempts + [AckQueue.Attempt(pkt, acks, marked, !OverMtu(p, mtu))];
    }

    /** The give-up branch of onLpPacketLost. */
    method GiveUp(k: Seq64) returns (removed: seq<Seq64>)
      requires W.ArcInv(State()) && W.ListInv(State()) && k in unackedFrags && unackedFrags[k].netPkt in netPkts
      modifies this`unackedFrags, this`firstUnackedFrag, this`netPkts, this`nRetxExhausted, this`dropped
      ensures State() == W.Exhaust(old(State()), k)
      ensures removed == W.Others(old(netPkts[unackedFrags[k].netPkt].unackedFrags), k) + [k]
    {
      ghost var w := State();
      I.ExhaustRemoves(w, k);
      var p := unackedFrags[k].netPkt;
      var netPkt := netPkts[p];
      var list := netPkt.unackedFrags;
      removed := DeleteOthers(list, k);
      nRetxExhausted := nRetxExhausted + 1;
      if netPkt.isInterest {
        dropped := dropped + [p];
      }
      removed := removed + [k];
      DeleteUnackedFrag(k);
      netPkts := netPkts - {p};
      DeleteFragsSplit(w, W.Others(list, k), k);
    }

    /** The loop of the give-up branch. */
    method DeleteOthers(list: seq<Seq64>, k: Seq64) returns (removed: seq<Seq64>)
      requires W.ArcInv(State()) && NoDup(list) && k in unackedFrags
      requires forall x :: x in list ==> x in unackedFrags
      modifies this`unackedFrags, this`firstUnackedFrag
      ensures State() == W.DeleteFrags(old(State()), W.Others(list, k))
      ensures removed == W.Others(list, k)
      ensures k in unackedFrags && firstUnackedFrag.Some?
    {
      hide W.ArcInv, W.Others, W.DeleteFrags;
      ghost var w0 := State();
      removed := [];
      var i := 0;
      assert list[0..] == list;
      while i < |list|
        invariant 0 <= i <= |list|
        invariant W.ArcInv(State()) && k in unackedFrags
        invariant forall j :: i <= j < |list| ==> list[j] in unackedFrags
        invariant W.DeleteFrags(State(), W.Others(list[i..], k)) == W.DeleteFrags(w0, W.Others(list, k))
        invariant removed + W.Others(list[i..], k) == W.Others(list, k)
      {
        OthersStep(list, i, k);
        if list[i] != k {
          removed := removed + [list[i]];
          DeleteOne(list[i], W.Others(list[i + 1..], k));
        }
        i := i + 1;
      }
      assert list[i..] == [];
      NoOthers(State(), k);
      HasFirst(State(), k);
    }

    method DeleteOne(k: Seq64, ghost rest: seq<Seq64>)
      requires W.ArcInv(State()) && k in unackedFrags
      modifies this`unackedFrags, this`firstUnackedFrag
      ensures W.ArcInv(State()) && unackedFrags == old(unackedFrags) - {k}
      ensures W.DeleteFrags(State(), rest) == W.DeleteFrags(old(State()), [k] + rest)
    {
      I.DeleteFragArc(State(), k);
      I.FreshAndPresent(State(), k);
      hide W.ArcInv, FirstAfterErase;
      assert ([k] + rest)[1..] == rest;
      DeleteUnackedFrag(k);
      assert State() == W.DeleteFrag(old(State()), k);
    }

    /** onLpPacketLost. */
    method OnLpPacketLost(k: Seq64) returns (threw: bool, removed: seq<Seq64>)
      requires W.ArcInv(State()) && W.ListInv(State()) && k in unackedFrags && unackedFrags[k].netPkt in netPkts
      requires k in netPkts[unackedFrags[k].netPkt].unackedFrags
      modifies this`unackedFrags, this`firstUnackedFrag, this`lastTxSeqNo, this`netPkts, this`nRetxExhausted,
               this`dropped, this`sends, this`ackQueue, this`attempts
      ensures threw <==> W.OnLost(old(State()), k, options).None?
      ensures !threw ==> Some(State()) == W.OnLost(old(State()), k, options)
      ensures !threw ==> removed == W.RemovedBy(old(State()), k, options)
    {
      threw := false;
      if unackedFrags[k].retxCount >= options.maxRetx {
        removed := GiveUp(k);
      } else {
        threw := SendAgain(k);
        removed := [k];
      }
    }

    /** The retransmission branch of onLpPacketLost, up to sending the fragment. */
    method MoveToNewTxSequence(k: Seq64) returns (threw: bool, pkt: LpPacket)
      requires W.ArcInv(State()) && k in unackedFrags && unackedFrags[k].netPkt in netPkts
      requires k in netPkts[unackedFrags[k].netPkt].unackedFrags
      modifies this`unackedFrags, this`firstUnackedFrag, this`lastTxSeqNo, this`netPkts, this`sends
      ensures threw <==> old(W.RangeExceeded(State()))
      ensures lastTxSeqNo == Plus(old(lastTxSeqNo), 1)
      ensures pkt == old(unackedFrags[k].pkt).(txSequence := Some(lastTxSeqNo))
      ensures !threw ==>
        var f := old(unackedFrags)[k];
        var np := old(netPkts)[f.netPkt];
        var more := old(unackedFrags)[lastTxSeqNo := W.UnackedFrag(pkt, f.retxCount + 1, 0, f.netPkt, f.slot)];
        && unackedFrags == more - {k}
        && firstUnackedFrag == FirstAfterErase(more.Keys, old(firstUnackedFrag), k)
        && netPkts == old(netPkts)[f.netPkt := np.(unackedFrags := np.unackedFrags[W.IndexOf(np.unackedFrags, k) := lastTxSeqNo],
                                                   didRetx := true)]
        && sends == old(sends) + multiset{(f.netPkt, f.slot)}
    {
      var frag := unackedFrags[k];
      var newTxSeq;
      I.FreshAndPresent(State(), k);
      hide W.ArcInv, FirstAfterErase, W.IndexOf;
      threw, pkt, newTxSeq := AssignTxSequence(frag.pkt);
      if threw {
        return;
      }
      var p := frag.netPkt;
      var netPkt := netPkts[p];
      unackedFrags := unackedFrags[newTxSeq := W.UnackedFrag(pkt, frag.retxCount + 1, 0, p, frag.slot)];
      var i := W.IndexOf(netPkt.unackedFrags, k);
      netPkts := netPkts[p := netPkt.(unackedFrags := netPkt.unackedFrags[i := newTxSeq], didRetx := true)];
      DeleteUnackedFrag(k);
      sends := sends + multiset{(p, frag.slot)};
    }

    /** The retransmission branch of onLpPacketLost. */
    method SendAgain(k: Seq64) returns (threw: bool)
      requires W.ArcInv(State()) && k in unackedFrags && unackedFrags[k].netPkt in netPkts
      requires k in netPkts[unackedFrags[k].netPkt].unackedFrags
      modifies this`unackedFrags, this`firstUnackedFrag, this`lastTxSeqNo, this`netPkts, this`sends, this`ackQueue, this`attempts
      ensures threw <==> old(W.RangeExceeded(State()))
      ensures !threw ==> State() == W.Retransmit(old(State()), k)
    {
      hide W.ArcInv, HeaderSize, FirstAfterErase, AckQueue.Transmit, W.IndexOf;
      var pkt;
      threw, pkt := MoveToNewTxSequence(k);
      if !threw {
        CarriesTxSequence(pkt);
        SendLpPacket(pkt, true);
      }
    }

    /** The loop of processIncomingPacket over the fragments considered lost.  No call of
        OnLpPacketLost meets a TxSequence that is gone. */
    method HandleLost(lost: seq<Seq64>) returns (threw: bool)
      requires Valid() && forall x :: x in lost ==> x in unackedFrags
      modifies this
      ensures threw <==> R.ProcessLost(old(State()), lost, {}, options).None?
      ensures !threw ==> Some(State()) == R.ProcessLost(old(State()), lost, {}, options) && Valid()
      ensures recentRecvSeqs == old(recentRecvSeqs)
    {
      hide R.Good;
      ghost var w0 := State();
      threw := false;
      var removedLpPackets: set<Seq64> := {};
      var i := 0;
      assert lost[0..] == lost;
      while i < |lost|
        invariant 0 <= i <= |lost| && Valid()
        invariant forall x :: x in lost[i..] ==> x in removedLpPackets || x in unackedFrags
        invariant R.ProcessLost(State(), lost[i..], removedLpPackets, options) == R.ProcessLost(w0, lost, {}, options)
        invariant recentRecvSeqs == old(recentRecvSeqs)
      {
        assert lost[i] in lost[i..];
        R.ProcessLostStep(State(), lost, i, removedLpPackets, options);
        hide R.ProcessLost;
        if lost[i] !in removedLpPackets {
          R.GoodIsSound(State(), options.maxRetx);
          I.FragIsListed(State(), lost[i]);
          var removed;
          threw, removed := OnLpPacketLost(lost[i]);
          if threw {
            return;
          }
          removedLpPackets := removedLpPackets + Elems(removed);
        }
        i := i + 1;
      }
    }

    /** One iteration of the ack loop of processIncomingPacket. */
    method ProcessAck(ack: Seq64) returns (threw: bool)
      requires Valid()
      modifies this
      ensures threw <==> R.ProcessAck(old(State()), ack, options).None?
      ensures !threw ==> Some(State()) == R.ProcessAck(old(State()), ack, options) && Valid()
      ensures recentRecvSeqs == old(recentRecvSeqs)
    {
      hide R.Good, R.ProcessLost, W.ArcInv, W.Partition, W.ListInv, W.LiveInv, W.Lost, W.Older;
      threw := false;
      if ack !in unackedFrags {
        return;
      }
      ghost var w := State();
      R.GoodIsSound(w, options.maxRetx);
      R.LostStayOutstanding(w, ack, options.seqNumLossThreshold);
      R.AckFragKeepsGood(w, ack, options.maxRetx);
      R.AckFragKeys(w, ack);
      I.FragIsListed(w, ack);
      HasFirst(w, ack);
      var lost := FindLostLpPackets(ack);
      OnLpPacketAcknowledged(ack);
      assert State() == R.AckFrag(w, ack);
      threw := HandleLost(lost);
    }

    /** processIncomingPacket.  `isNew` is its result; `now` and `rto` are the clock and the
        estimator's answer. */
    method ProcessIncomingPacket(pkt: LpPacket, now: nat, rto: nat) returns (threw: bool, isNew: bool)
      requires Valid()
      modifies this
      ensures threw <==> R.ProcessAcks(old(State()), pkt.acks, options).None?
      ensures !threw ==> Valid()
      ensures !threw ==>
                State() == R.QueueAck(R.ProcessAcks(old(State()), pkt.acks, options).value,
                                      if pkt.fragment.Some? then pkt.txSequence else None)
      ensures !threw ==>
        var checked := pkt.fragment.Some? && pkt.txSequence.Some? && pkt.sequence.Some?;
        && (isNew <==> !(checked && DuplicateFilter.IsDuplicate(old(recentRecvSeqs), pkt.sequence.value)))
        && recentRecvSeqs == if checked
                             then DuplicateFilter.Receive(old(recentRecvSeqs), pkt.sequence.value, now, rto)
                             else old(recentRecvSeqs)
    {
      hide R.Good;
      threw, isNew := false, true;
      threw := ProcessAllAcks(pkt.acks);
      if threw {
        return;
      }
      if pkt.fragment.Some? && pkt.txSequence.Some? {
        R.QueueAckKeepsGood(State(), pkt.txSequence.value, options.maxRetx);
        ackQueue := ackQueue + [pkt.txSequence.value];
        acksQueued := acksQueued + [pkt.txSequence.value];
        if pkt.sequence.Some? {
          var isDuplicate;
          isDuplicate, recentRecvSeqs := DuplicateFilter.CheckDuplicate(recentRecvSeqs, pkt.sequence.value, now, rto);
          isNew := !isDuplicate;
        }
      }
    }

    /** The ack loop of processIncomingPacket. */
    method ProcessAllAcks(acks: seq<Seq64>) returns (threw: bool)
      requires Valid()
      modifies this
      ensures threw <==> R.ProcessAcks(old(State()), acks, options).None?
      ensures !threw ==> Some(State()) == R.ProcessAcks(old(State()), acks, options) && Valid()
      ensures recentRecvSeqs == old(recentRecvSeqs)
    {
      hide R.Good, R.ProcessAck;
      ghost var w0 := State();
      threw := false;
      var i := 0;
      assert acks[0..] == acks;
      while i < |acks|
        invariant 0 <= i <= |acks| && Valid()
        invariant R.ProcessAcks(State(), acks[i..], options) == R.ProcessAcks(w0, acks, options)
        invariant recentRecvSeqs == old(recentRecvSeqs)
      {
        assert acks[i..][1..] == acks[i + 1..];
        threw := ProcessAck(acks[i]);
        if threw {
          return;
        }
        i := i + 1;
      }
    }
  }

  lemma BumpNone(frags: map<Seq64, W.UnackedFrag>)
    ensures W.Bump(frags, []) == frags
  {
  }

  lemma {:induction false} DeleteFragsSplit(w: W.Window, ks: seq<Seq64>, k: Seq64)
    ensures W.DeleteFrags(w, ks + [k]) == W.DeleteFrag(W.DeleteFrags(w, ks), k)
    decreases |ks|
  {
    if ks == [] {
      assert W.DeleteFrags(W.DeleteFrag(w, k), []) == W.DeleteFrag(w, k);
      assert ([] + [k])[1..] == [];
    } else {
      assert (ks + [k])[1..] == ks[1..] + [k];
      DeleteFragsSplit(W.DeleteFrag(w, ks[0]), ks[1..], k);
    }
  }

  lemma HasFirst(w: W.Window, k: Seq64)
    requires W.ArcInv(w) && k in w.frags
    ensures w.first.Some?
  {
  }

  lemma NoOthers(w: W.Window, k: Seq64)
    ensures W.Others([], k) == [] && W.DeleteFrags(w, []) == w
  {
  }

  lemma AddFragsNone(w: W.Window, p: nat, slot: nat)
    requires p in w.netPkts
    ensures W.AddFrags(w, p, slot, []) == Some(w)
  {
  }

  lemma AddFragsStep(w: W.Window, p: nat, slot: nat, frags: seq<LpPacket>)
    requires p in w.netPkts && slot < |frags|
    ensures var r := W.AddFrag(w, p, slot, frags[slot]);
            && (r.Some? ==> p in r.value.netPkts && !W.RangeExceeded(w))
            && W.AddFrags(w, p, slot, frags[slot..]) ==
               if r.None? then None else W.AddFrags(r.value, p, slot + 1, frags[slot + 1..])
  {
    assert frags[slot..][1..] == frags[slot + 1..];
  }

  lemma OthersStep(list: seq<Seq64>, i: nat, k: Seq64)
    requires i < |list|
    ensures W.Others(list[i..], k) ==
            if list[i] != k then [list[i]] + W.Others(list[i + 1..], k) else W.Others(list[i + 1..], k)
  {
    assert list[i..][1..] == list[i + 1..];
  }

  lemma CarriesTxSequence(pkt: LpPacket)
    requires pkt.txSequence.Some?
    ensures !IsBare(pkt)
  {
  }

  lemma OlderFacts(w: W.Window, ack: Seq64)
    requires W.ArcInv(w) && ack in w.frags
    ensures forall k :: k in W.Older(w, ack) ==> k in w.frags
    ensures NoDup(W.Older(w, ack))
  {
    forall k
      ensures k in W.Older(w, ack) ==> k in w.frags
    {
      R.OlderElems(w, ack, k);
    }
    WalkNoDup(w.frags.Keys, w.first.value, ack);
  }

  lemma BumpOneMore(frags: map<Seq64, W.UnackedFrag>, older: seq<Seq64>, i: nat)
    requires i < |older| && NoDup(older) && older[i] in frags
    ensures W.Bump(frags, older[..i])[older[i]] == frags[older[i]]
    ensures W.Bump(frags, older[..i + 1]) == W.Bump(frags, older[..i])[older[i] := W.BumpFrag(frags[older[i]])]
  {
    assert older[i] !in older[..i];
    assert forall k :: k in older[..i + 1] <==> k in older[..i] || k == older[i];
  }

  lemma {:induction false} LostAppend(frags: map<Seq64, W.UnackedFrag>, a: seq<Seq64>, b: seq<Seq64>, threshold: nat)
    requires forall k :: k in a + b ==> k in frags
    ensures forall k :: k in a ==> k in frags
    ensures forall k :: k in b ==> k in frags
    ensures W.Lost(frags, a + b, threshold) == W.Lost(frags, a, threshold) + W.Lost(frags, b, threshold)
  {
    assert forall k :: k in a || k in b ==> k in a + b;
    if a == [] {
      assert a + b == b;
    } else {
      assert (a + b)[1..] == a[1..] + b && (a + b)[0] == a[0];
      LostAppend(frags, a[1..], b, threshold);
      var head := if frags[a[0]].nGreaterSeqAcks + 1 >= threshold then [a[0]] else [];
      assert W.Lost(frags, a + b, threshold) == head + W.Lost(frags, a[1..] + b, threshold);
      assert W.Lost(frags, a, threshold) == head + W.Lost(frags, a[1..], threshold);
    }
  }

  lemma LostOneMore(frags: map<Seq64, W.UnackedFrag>, older: seq<Seq64>, i: nat, threshold: nat)
    requires i < |older| && forall k :: k in older ==> k in frags
    ensures forall k :: k in older[..i + 1] ==> k in frags
    ensures W.Lost(frags, older[..i + 1], threshold) ==
            W.Lost(frags, older[..i], threshold)
            + if frags[older[i]].nGreaterSeqAcks + 1 >= threshold then [older[i]] else []
  {
    assert older[..i + 1] == older[..i] + [older[i]];
    LostAppend(frags, older[..i], [older[i]], threshold);
    assert W.Lost(frags, [], threshold) == [];
  }

  lemma SizeOneMeansFirst(frags: map<Seq64, W.UnackedFrag>, k: Seq64, f: W.UnackedFrag)
    requires k !in frags
    ensures |frags[k := f]| == 1 <==> frags == map[]
  {
    assert frags[k := f].Keys == frags.Keys + {k};
    assert |frags[k := f]| == |frags[k := f].Keys| && |frags| == |frags.Keys|;
  }
}
