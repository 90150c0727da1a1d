/** What the ack counts and the retransmission flag of the send window mean, in every
    reachable state. */
module LpWindowLoss {
  import opened Basics
  import opened LpPackets
  import opened TxRing
  import opened LpWindow
  import opened LpWindowInvariants
  import opened LpWindowRuns

  // ---------------------------------------------------------------- ack counts

  /** Fewer than the threshold of acks for later fragments have passed this fragment. */
  ghost predicate Passable(f: UnackedFrag, threshold: nat) {
    f.nGreaterSeqAcks == 0 || f.nGreaterSeqAcks < threshold
  }

  ghost predicate CountInv(frags: map<Seq64, UnackedFrag>, threshold: nat) {
    forall k :: k in frags ==> Passable(frags[k], threshold)
  }

  /** Every fragment is passable or is still to be handled by the loop over `lost`. */
  ghost predicate Pending(frags: map<Seq64, UnackedFrag>, lost: seq<Seq64>, removed: set<Seq64>, threshold: nat) {
    forall k :: k in frags ==> Passable(frags[k], threshold) || (k in lost && k !in removed)
  }

  lemma {:induction false} AddFragsCounts(w: Window, p: nat, slot: nat, frags: seq<LpPacket>, threshold: nat)
    requires p in w.netPkts && CountInv(w.frags, threshold)
    ensures var r := AddFrags(w, p, slot, frags);
            r.Some? ==> CountInv(r.value.frags, threshold)
    decreases |frags|
  {
    if frags != [] && !RangeExceeded(w) {
      AddFragsCounts(AddFrag(w, p, slot, frags[0]).value, p, slot + 1, frags[1..], threshold);
    }
  }

  /** onLpPacketLost leaves the other fragments as they are and adds none with a count. */
  lemma OnLostCounts(w: Window, k: Seq64, opts: Options, x: Seq64)
    requires Inv(w) && k in w.frags && w.frags[k].netPkt in w.netPkts
    requires k in w.netPkts[w.frags[k].netPkt].unackedFrags
    requires OnLost(w, k, opts).Some? && x in OnLost(w, k, opts).value.frags
    ensures var r := OnLost(w, k, opts).value;
            || r.frags[x].nGreaterSeqAcks == 0
            || (x in w.frags && x !in RemovedBy(w, k, opts) && r.frags[x] == w.frags[x])
  {
    if w.frags[k].retxCount >= opts.maxRetx {
      DeleteFragsFrame(w, Others(w.netPkts[w.frags[k].netPkt].unackedFrags, k) + [k]);
    }
  }

  lemma {:induction false} ProcessLostClears(w: Window, lost: seq<Seq64>, removed: set<Seq64>, opts: Options)
    requires Good(w, opts.maxRetx)
    requires forall x :: x in lost ==> x in removed || x in w.frags
    requires Pending(w.frags, lost, removed, opts.seqNumLossThreshold)
    ensures var r := ProcessLost(w, lost, removed, opts);
            r.Some? ==> CountInv(r.value.frags, opts.seqNumLossThreshold)
    decreases |lost|
  {
    if lost == [] {
    } else if lost[0] in removed {
      ProcessLostClears(w, lost[1..], removed, opts);
    } else {
      var k := lost[0];
      FragIsListed(w, k);
      OnLostKeepsGood(w, k, opts);
      var r := OnLost(w, k, opts);
      if r.Some? {
        StillOutstanding(w, lost, removed, opts);
        var removed' := removed + Elems(RemovedBy(w, k, opts));
        PendingAfterLoss(w, lost, removed, opts);
        ProcessLostClears(r.value, lost[1..], removed', opts);
      }
    }
  }

  lemma PendingAfterLoss(w: Window, lost: seq<Seq64>, removed: set<Seq64>, opts: Options)
    requires Inv(w) && lost != [] && lost[0] in w.frags && w.frags[lost[0]].netPkt in w.netPkts
    requires lost[0] in w.netPkts[w.frags[lost[0]].netPkt].unackedFrags
    requires Pending(w.frags, lost, removed, opts.seqNumLossThreshold)
    requires OnLost(w, lost[0], opts).Some?
    ensures Pending(OnLost(w, lost[0], opts).value.frags, lost[1..],
                    removed + Elems(RemovedBy(w, lost[0], opts)), opts.seqNumLossThreshold)
  {
    var r := OnLost(w, lost[0], opts).value;
    forall x | x in r.frags
      ensures Passable(r.frags[x], opts.seqNumLossThreshold)
              || (x in lost[1..] && x !in removed + Elems(RemovedBy(w, lost[0], opts)))
    {
      OnLostCounts(w, lost[0], opts, x);
      OnLostReportsRemovals(w, lost[0], opts, x);
      assert x in lost ==> x == lost[0] || x in lost[1..];
    }
  }

  lemma AckFragPending(w: Window, ack: Seq64, threshold: nat)
    requires Inv(w) && ack in w.frags && CountInv(w.frags, threshold)
    requires forall k :: k in Older(w, ack) ==> k in w.frags
    ensures Pending(AckFrag(w, ack).frags, Lost(w.frags, Older(w, ack), threshold), {}, threshold)
  {
    var r := AckFrag(w, ack);
    forall x | x in r.frags
      ensures Passable(r.frags[x], threshold) || x in Lost(w.frags, Older(w, ack), threshold)
    {
      FindLostIsExact(w, ack, threshold, x);
    }
  }

  lemma ProcessAckCounts(w: Window, ack: Seq64, opts: Options)
    requires Good(w, opts.maxRetx) && CountInv(w.frags, opts.seqNumLossThreshold)
    ensures var r := ProcessAck(w, ack, opts);
            r.Some? ==> CountInv(r.value.frags, opts.seqNumLossThreshold)
  {
    if ack in w.frags {
      LostStayOutstanding(w, ack, opts.seqNumLossThreshold);
      AckFragKeepsGood(w, ack, opts.maxRetx);
      AckFragKeys(w, ack);
      AckFragPending(w, ack, opts.seqNumLossThreshold);
      ProcessLostClears(AckFrag(w, ack), Lost(w.frags, Older(w, ack), opts.seqNumLossThreshold), {}, opts);
    }
  }

  lemma {:induction false} ProcessAcksCounts(w: Window, acks: seq<Seq64>, opts: Options)
    requires Good(w, opts.maxRetx) && CountInv(w.frags, opts.seqNumLossThreshold)
    ensures var r := ProcessAcks(w, acks, opts);
            r.Some? ==> CountInv(r.value.frags, opts.seqNumLossThreshold)
    decreases |acks|
  {
    if acks != [] {
      ProcessAckCounts(w, acks[0], opts);
      var r := ProcessAck(w, acks[0], opts);
      if r.Some? {
        ProcessAcksCounts(r.value, acks[1..], opts);
      }
    }
  }

  lemma StepCounts(w: Window, e: Event, opts: Options)
    requires Good(w, opts.maxRetx) && Enabled(w, e) && CountInv(w.frags, opts.seqNumLossThreshold)
    ensures var r := Step(w, e, opts);
            r.Some? ==> CountInv(r.value.frags, opts.seqNumLossThreshold)
  {
    match e
    case Outgoing(frags, pkt, isInterest) =>
      AddFragsCounts(NewNetPkt(w, pkt, isInterest), w.nHanded, 0, frags, opts.seqNumLossThreshold);
    case Incoming(acks, txSeq) => ProcessAcksCounts(w, acks, opts);
    case RtoExpired(txSeq) =>
      FragIsListed(w, txSeq);
      var r := OnLost(w, txSeq, opts);
      if r.Some? {
        forall x | x in r.value.frags
          ensures Passable(r.value.frags[x], opts.seqNumLossThreshold)
        {
          OnLostCounts(w, txSeq, opts, x);
        }
      }
    case Send(packet) =>
  }

  /** In every reachable state no outstanding fragment has been passed by as many acks for
      later fragments as make it lost: each one that was has been sent again or given up. */
  lemma {:induction false} NothingLostIsOutstandingInEveryRun(es: seq<Event>, opts: Options)
    requires Run(es, opts).Some?
    ensures forall k :: k in Run(es, opts).value.frags ==>
              Passable(Run(es, opts).value.frags[k], opts.seqNumLossThreshold)
    decreases |es|
  {
    if es != [] {
      NothingLostIsOutstandingInEveryRun(es[..|es| - 1], opts);
      StepCounts(Run(es[..|es| - 1], opts).value, es[|es| - 1], opts);
    }
  }

  // ---------------------------------------------------------------- retransmission flag

  ghost predicate SentAgain(sends: multiset<(nat, nat)>, p: nat) {
    exists s :: sends[(p, s)] >= 2
  }

  /** A live network packet is flagged exactly if one of its fragments was sent again. */
  ghost predicate FlagInv(netPkts: map<nat, NetPkt>, sends: multiset<(nat, nat)>) {
    forall p :: p in netPkts ==> (netPkts[p].didRetx <==> SentAgain(sends, p))
  }

  lemma {:induction false} AddFragsOnce(w: Window, p: nat, slot: nat, frags: seq<LpPacket>)
    requires p in w.netPkts
    requires forall s :: w.sends[(p, s)] <= if s < slot then 1 else 0
    ensures var r := AddFrags(w, p, slot, frags);
            r.Some? ==>
              && (forall s :: r.value.sends[(p, s)] <= 1)
              && (forall q, s :: q != p ==> r.value.sends[(q, s)] == w.sends[(q, s)])
              && r.value.netPkts[p].didRetx == w.netPkts[p].didRetx
              && r.value.netPkts == w.netPkts[p := r.value.netPkts[p]]
    decreases |frags|
  {
    if frags != [] && !RangeExceeded(w) {
      AddFragsOnce(AddFrag(w, p, slot, frags[0]).value, p, slot + 1, frags[1..]);
    }
  }

  lemma SameSendsSameFlag(sends: multiset<(nat, nat)>, more: multiset<(nat, nat)>, p: nat)
    requires forall s :: sends[(p, s)] == more[(p, s)]
    ensures SentAgain(sends, p) <==> SentAgain(more, p)
  {
    if SentAgain(sends, p) {
      var s :| sends[(p, s)] >= 2;
      assert more[(p, s)] >= 2;
    }
    if SentAgain(more, p) {
      var s :| more[(p, s)] >= 2;
      assert sends[(p, s)] >= 2;
    }
  }

  lemma HandleOutgoingFlags(w: Window, frags: seq<LpPacket>, pkt: LpPacket, isInterest: bool, maxRetx: nat)
    requires Good(w, maxRetx) && FlagInv(w.netPkts, w.sends)
    ensures var r := HandleOutgoing(w, frags, pkt, isInterest);
            r.Some? ==> FlagInv(r.value.netPkts, r.value.sends)
  {
    var w1 := NewNetPkt(w, pkt, isInterest);
    forall s
      ensures w1.sends[(w.nHanded, s)] == 0
    {
      assert w.sends[(w.nHanded, s)] <= maxRetx + 1;
    }
    AddFragsOnce(w1, w.nHanded, 0, frags);
    var r := HandleOutgoing(w, frags, pkt, isInterest);
    if r.Some? {
      forall p | p in r.value.netPkts
        ensures r.value.netPkts[p].didRetx <==> SentAgain(r.value.sends, p)
      {
        if p != w.nHanded {
          SameSendsSameFlag(w.sends, r.value.sends, p);
        }
      }
    }
  }

  lemma OnLostFlags(w: Window, k: Seq64, opts: Options)
    requires Good(w, opts.maxRetx) && FlagInv(w.netPkts, w.sends)
    requires k in w.frags && w.frags[k].netPkt in w.netPkts
    requires k in w.netPkts[w.frags[k].netPkt].unackedFrags
    ensures OnLost(w, k, opts).Some? ==>
              FlagInv(OnLost(w, k, opts).value.netPkts, OnLost(w, k, opts).value.sends)
  {
    var r := OnLost(w, k, opts);
    var f := w.frags[k];
    if f.retxCount >= opts.maxRetx {
      DeleteFragsFrame(w, Others(w.netPkts[f.netPkt].unackedFrags, k) + [k]);
    } else if r.Some? {
      assert r.value.sends[(f.netPkt, f.slot)] >= 2;
      forall p | p in r.value.netPkts
        ensures r.value.netPkts[p].didRetx <==> SentAgain(r.value.sends, p)
      {
        if p != f.netPkt {
          SameSendsSameFlag(w.sends, r.value.sends, p);
        }
      }
    }
  }

  lemma {:induction false} ProcessLostFlags(w: Window, lost: seq<Seq64>, removed: set<Seq64>, opts: Options)
    requires Good(w, opts.maxRetx) && FlagInv(w.netPkts, w.sends)
    requires forall x :: x in lost ==> x in removed || x in w.frags
    ensures var r := ProcessLost(w, lost, removed, opts);
            r.Some? ==> FlagInv(r.value.netPkts, r.value.sends)
    decreases |lost|
  {
    if lost == [] {
    } else if lost[0] in removed {
      ProcessLostFlags(w, lost[1..], removed, opts);
    } else {
      var k := lost[0];
      FragIsListed(w, k);
      OnLostKeepsGood(w, k, opts);
      OnLostFlags(w, k, opts);
      var r := OnLost(w, k, opts);
      if r.Some? {
        StillOutstanding(w, lost, removed, opts);
        ProcessLostFlags(r.value, lost[1..], removed + Elems(RemovedBy(w, k, opts)), opts);
      }
    }
  }

  lemma AckFragFlags(w: Window, ack: Seq64)
    requires Inv(w) && ack in w.frags && FlagInv(w.netPkts, w.sends)
    ensures FlagInv(AckFrag(w, ack).netPkts, AckFrag(w, ack).sends)
  {
  }

  lemma {:induction false} ProcessAcksFlags(w: Window, acks: seq<Seq64>, opts: Options)
    requires Good(w, opts.maxRetx) && FlagInv(w.netPkts, w.sends)
    ensures var r := ProcessAcks(w, acks, opts);
            r.Some? ==> FlagInv(r.value.netPkts, r.value.sends)
    decreases |acks|
  {
    if acks != [] {
      var ack := acks[0];
      if ack in w.frags {
        LostStayOutstanding(w, ack, opts.seqNumLossThreshold);
        AckFragKeepsGood(w, ack, opts.maxRetx);
        AckFragKeys(w, ack);
        AckFragFlags(w, ack);
        ProcessLostFlags(AckFrag(w, ack), Lost(w.frags, Older(w, ack), opts.seqNumLossThreshold), {}, opts);
      }
      var r := ProcessAck(w, ack, opts);
      if r.Some? {
        ProcessAcksFlags(r.value, acks[1..], opts);
      }
    }
  }

  lemma {:induction false} FlagsInEveryRun(es: seq<Event>, opts: Options)
    requires Run(es, opts).Some?
    ensures FlagInv(Run(es, opts).value.netPkts, Run(es, opts).value.sends)
    decreases |es|
  {
    if es != [] {
      FlagsInEveryRun(es[..|es| - 1], opts);
      var v := Run(es[..|es| - 1], opts).value;
      match es[|es| - 1]
      case Outgoing(frags, pkt, isInterest) => HandleOutgoingFlags(v, frags, pkt, isInterest, opts.maxRetx);
      case Incoming(acks, txSeq) => ProcessAcksFlags(v, acks, opts);
      case RtoExpired(txSeq) =>
        FragIsListed(v, txSeq);
        OnLostFlags(v, txSeq, opts);
      case Send(packet) =>
    }
  }

  /** In every reachable state, an ack that completes a network packet counts it as
      retransmitted if one of its fragments was sent more than once, and as acknowledged
      if each was sent once; an ack that does not complete one counts nothing. */
  lemma AckClassifiesPacketInEveryRun(es: seq<Event>, opts: Options, ack: Seq64)
    requires Run(es, opts).Some? && ack in Run(es, opts).value.frags
    ensures var w := Run(es, opts).value;
            var r := AckFrag(w, ack);
            var p := w.frags[ack].netPkt;
            var completed := forall k :: k in w.frags && w.frags[k].netPkt == p ==> k == ack;
            && (p !in r.netPkts <==> completed)
            && r.nRetransmitted == w.nRetransmitted + (if completed && SentAgain(w.sends, p) then 1 else 0)
            && r.nAcknowledged == w.nAcknowledged + (if completed && !SentAgain(w.sends, p) then 1 else 0)
            && r.nRetxExhausted == w.nRetxExhausted
  {
    FlagsInEveryRun(es, opts);
    var w := Run(es, opts).value;
    FragIsListed(w, ack);
    var p := w.frags[ack].netPkt;
    CompletedMeansLast(w, ack);
  }

  lemma CompletedMeansLast(w: Window, ack: Seq64)
    requires Inv(w) && ack in w.frags && w.frags[ack].netPkt in w.netPkts
    requires ack in w.netPkts[w.frags[ack].netPkt].unackedFrags
    ensures RemoveSwap(w.netPkts[w.frags[ack].netPkt].unackedFrags, ack) == [] <==>
            forall k :: k in w.frags && w.frags[k].netPkt == w.frags[ack].netPkt ==> k == ack
  {
    var p := w.frags[ack].netPkt;
    var list := w.netPkts[p].unackedFrags;
    var left := RemoveSwap(list, ack);
    if left == [] {
      forall k | k in w.frags && w.frags[k].netPkt == p
        ensures k == ack
      {
        assert Listed(w.frags, w.netPkts, p, k);
        RemoveSwapElems(list, ack, k);
      }
    } else {
      var k := left[0];
      assert k in left;
      RemoveSwapElems(list, ack, k);
      assert Listed(w.frags, w.netPkts, p, k);
    }
  }
}
