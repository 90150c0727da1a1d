/** Whole runs of the send window: loss detection, retransmission bounds, and the
    invariants that hold in every reachable state. */
module LpWindowRuns {
  import opened Basics
  import opened LpPackets
  import opened TxRing
  import opened AckQueue
  import opened LpWindow
  import opened LpWindowInvariants

  // ---------------------------------------------------------------- loss detection

  lemma {:induction false} LostElems(frags: map<Seq64, UnackedFrag>, older: seq<Seq64>, threshold: nat, x: Seq64)
    requires forall k :: k in older ==> k in frags
    ensures x in Lost(frags, older, threshold) <==>
            x in older && frags[x].nGreaterSeqAcks + 1 >= threshold
  {
    if older != [] {
      LostElems(frags, older[1..], threshold, x);
      var rest := Lost(frags, older[1..], threshold);
      assert x in Lost(frags, older, threshold) <==>
             x in rest || (x == older[0] && frags[x].nGreaterSeqAcks + 1 >= threshold);
    }
  }

  lemma OlderElems(w: Window, ack: Seq64, x: Seq64)
    requires ArcInv(w) && ack in w.frags
    ensures x in Older(w, ack) <==> x in w.frags && Dist(w.first.value, x) < Dist(w.first.value, ack)
  {
    WalkMeetsOlderKeys(w.frags.Keys, w.first.value, ack, x);
  }

  /** findLostLpPackets increments the count of exactly the outstanding fragments that are
      circularly older than the acknowledged one, and reports exactly those whose count
      reaches the threshold. */
  lemma FindLostIsExact(w: Window, ack: Seq64, threshold: nat, x: Seq64)
    requires ArcInv(w) && ack in w.frags && x in w.frags
    ensures var older := Dist(w.first.value, x) < Dist(w.first.value, ack);
            var after := Bump(w.frags, Older(w, ack));
            && after[x] == (if older then BumpFrag(w.frags[x]) else w.frags[x])
            && (forall k :: k in Older(w, ack) ==> k in w.frags)
            && (x in Lost(w.frags, Older(w, ack), threshold) <==> older && after[x].nGreaterSeqAcks >= threshold)
  {
    forall k
      ensures k in Older(w, ack) ==> k in w.frags
    {
      OlderElems(w, ack, k);
    }
    OlderElems(w, ack, x);
    LostElems(w.frags, Older(w, ack), threshold, x);
  }

  // ---------------------------------------------------------------- history

  /** Each outstanding fragment has been sent once more than it was retransmitted; no
      fragment, outstanding or not, has been sent more than 1 + maxRetx times. */
  ghost predicate SendsInv(frags: map<Seq64, UnackedFrag>, sends: multiset<(nat, nat)>, nHanded: nat, maxRetx: nat) {
    && (forall k :: k in frags ==>
          frags[k].retxCount <= maxRetx && sends[(frags[k].netPkt, frags[k].slot)] == frags[k].retxCount + 1)
    && (forall k, l :: k in frags && l in frags && k != l ==>
          (frags[k].netPkt, frags[k].slot) != (frags[l].netPkt, frags[l].slot))
    && (forall p, s :: sends[(p, s)] <= maxRetx + 1)
    && (forall p, s :: sends[(p, s)] > 0 ==> p < nHanded)
  }

  ghost predicate UsedUp(sends: multiset<(nat, nat)>, p: nat, maxRetx: nat) {
    exists s :: sends[(p, s)] == maxRetx + 1
  }

  /** Each network packet is reported as a dropped Interest at most once, only after it is
      gone and one of its fragments has been sent 1 + maxRetx times. */
  ghost predicate DropInv(w: Window, maxRetx: nat) {
    && NoDup(w.dropped)
    && forall p :: p in w.dropped ==> p < w.nHanded && p !in w.netPkts && UsedUp(w.sends, p, maxRetx)
  }

  ghost predicate PktInv(frags: map<Seq64, UnackedFrag>) {
    forall k :: k in frags ==> frags[k].pkt.txSequence == Some(k) && frags[k].pkt.acks == []
  }

  ghost predicate Good(w: Window, maxRetx: nat) {
    && Inv(w)
    && SendsInv(w.frags, w.sends, w.nHanded, maxRetx)
    && DropInv(w, maxRetx)
    && PktInv(w.frags)
    && Fifo(w.acks)
  }

  lemma GoodIsSound(w: Window, maxRetx: nat)
    requires Good(w, maxRetx)
    ensures Inv(w) && ArcInv(w) && ListInv(w)
  {
  }

  lemma SendsAdd(frags: map<Seq64, UnackedFrag>, sends: multiset<(nat, nat)>, nHanded: nat, maxRetx: nat,
                 k: Seq64, f: UnackedFrag)
    requires SendsInv(frags, sends, nHanded, maxRetx) && k !in frags
    requires f.retxCount == 0 && f.netPkt < nHanded && sends[(f.netPkt, f.slot)] == 0
    ensures SendsInv(frags[k := f], sends + multiset{(f.netPkt, f.slot)}, nHanded, maxRetx)
  {
  }

  lemma SendsMove(frags: map<Seq64, UnackedFrag>, sends: multiset<(nat, nat)>, nHanded: nat, maxRetx: nat,
                  k: Seq64, tx: Seq64, f: UnackedFrag)
    requires SendsInv(frags, sends, nHanded, maxRetx) && k in frags && tx !in frags
    requires frags[k].retxCount < maxRetx
    requires f.retxCount == frags[k].retxCount + 1 && f.netPkt == frags[k].netPkt && f.slot == frags[k].slot
    ensures SendsInv(frags[tx := f] - {k}, sends + multiset{(f.netPkt, f.slot)}, nHanded, maxRetx)
  {
    var frags', sends' := frags[tx := f] - {k}, sends + multiset{(f.netPkt, f.slot)};
    forall x | x in frags'
      ensures sends'[(frags'[x].netPkt, frags'[x].slot)] == frags'[x].retxCount + 1
    {
      if x != tx {
        assert (frags[x].netPkt, frags[x].slot) != (frags[k].netPkt, frags[k].slot);
      }
    }
  }

  lemma SendsFewer(frags: map<Seq64, UnackedFrag>, sends: multiset<(nat, nat)>, nHanded: nat, maxRetx: nat,
                   frags': map<Seq64, UnackedFrag>)
    requires SendsInv(frags, sends, nHanded, maxRetx)
    requires forall x :: x in frags' ==>
               && x in frags && frags'[x].retxCount == frags[x].retxCount
               && frags'[x].netPkt == frags[x].netPkt && frags'[x].slot == frags[x].slot
    ensures SendsInv(frags', sends, nHanded, maxRetx)
  {
  }

  lemma UsedUpMonotone(sends: multiset<(nat, nat)>, more: multiset<(nat, nat)>, p: nat, maxRetx: nat)
    requires UsedUp(sends, p, maxRetx)
    requires forall s :: sends[(p, s)] <= more[(p, s)] <= maxRetx + 1
    ensures UsedUp(more, p, maxRetx)
  {
    var s :| sends[(p, s)] == maxRetx + 1;
    assert more[(p, s)] == maxRetx + 1;
  }

  // ---------------------------------------------------------------- handleOutgoing

  /** What handleOutgoing requires of the fragments: not empty, each with a Sequence; freshly
      built packets carry no Ack fields. */
  ghost predicate Handable(frags: seq<LpPacket>) {
    frags != [] && forall i :: 0 <= i < |frags| ==> frags[i].sequence.Some? && frags[i].acks == []
  }

  lemma {:induction false} AddFragsSends(w: Window, p: nat, slot: nat, frags: seq<LpPacket>, maxRetx: nat)
    requires ArcInv(w) && p in w.netPkts && p < w.nHanded
    requires SendsInv(w.frags, w.sends, w.nHanded, maxRetx)
    requires forall s :: s >= slot ==> w.sends[(p, s)] == 0
    ensures var r := AddFrags(w, p, slot, frags);
            r.Some? ==>
              && SendsInv(r.value.frags, r.value.sends, w.nHanded, maxRetx)
              && forall q, s :: q != p ==> r.value.sends[(q, s)] == w.sends[(q, s)]
    decreases |frags|
  {
    hide ArcInv, SendsInv;
    if frags != [] && !RangeExceeded(w) {
      NextTxIsFresh(w);
      var tx := Plus(w.lastTx, 1);
      SendsAdd(w.frags, w.sends, w.nHanded, maxRetx, tx, UnackedFrag(frags[0].(txSequence := Some(tx)), 0, 0, p, slot));
      AddFragArc(w, p, slot, frags[0]);
      AddFragsSends(AddFrag(w, p, slot, frags[0]).value, p, slot + 1, frags[1..], maxRetx);
    }
  }

  lemma {:induction false} AddFragsPkts(w: Window, p: nat, slot: nat, frags: seq<LpPacket>)
    requires p in w.netPkts && PktInv(w.frags)
    requires forall i :: 0 <= i < |frags| ==> frags[i].acks == []
    ensures var r := AddFrags(w, p, slot, frags);
            r.Some? ==> PktInv(r.value.frags)
    decreases |frags|
  {
    if frags != [] && !RangeExceeded(w) {
      AddFragsPkts(AddFrag(w, p, slot, frags[0]).value, p, slot + 1, frags[1..]);
    }
  }

  lemma HandleOutgoingHistory(w: Window, frags: seq<LpPacket>, pkt: LpPacket, isInterest: bool, maxRetx: nat)
    requires Good(w, maxRetx) && Handable(frags)
    ensures var r := HandleOutgoing(w, frags, pkt, isInterest);
            r.Some? ==>
              && DropInv(r.value, maxRetx)
              && SendsInv(r.value.frags, r.value.sends, r.value.nHanded, maxRetx)
              && PktInv(r.value.frags)
  {
    var w1 := NewNetPkt(w, pkt, isInterest);
    AddFragsSends(w1, w.nHanded, 0, frags, maxRetx);
    AddFragsPkts(w1, w.nHanded, 0, frags);
    AddFragsFrame(w1, w.nHanded, 0, frags);
    var r := HandleOutgoing(w, frags, pkt, isInterest);
    if r.Some? {
      forall q | q in r.value.dropped
        ensures q < r.value.nHanded && q !in r.value.netPkts && UsedUp(r.value.sends, q, maxRetx)
      {
        UsedUpMonotone(w.sends, r.value.sends, q, maxRetx);
      }
    }
  }

  lemma HandleOutgoingKeepsGood(w: Window, frags: seq<LpPacket>, pkt: LpPacket, isInterest: bool, maxRetx: nat)
    requires Good(w, maxRetx) && Handable(frags)
    ensures var r := HandleOutgoing(w, frags, pkt, isInterest);
            r.Some? ==> Good(r.value, maxRetx) && r.value.nHanded == w.nHanded + 1 && r.value.acks == w.acks
  {
    HandleOutgoingKeepsInv(w, frags, pkt, isInterest);
    HandleOutgoingHistory(w, frags, pkt, isInterest, maxRetx);
    AddFragsFrame(NewNetPkt(w, pkt, isInterest), w.nHanded, 0, frags);
  }

  // ---------------------------------------------------------------- acknowledgement and loss

  /** Changing nothing but ack counts. */
  lemma RecountKeepsGood(w: Window, frags: map<Seq64, UnackedFrag>, maxRetx: nat)
    requires Good(w, maxRetx)
    requires frags.Keys == w.frags.Keys
    requires forall k :: k in frags ==> frags[k] == w.frags[k].(nGreaterSeqAcks := frags[k].nGreaterSeqAcks)
    ensures Good(w.(frags := frags), maxRetx)
  {
    PartitionSameOwners(w.frags, w.netPkts, frags);
    SendsFewer(w.frags, w.sends, w.nHanded, maxRetx, frags);
  }

  lemma BumpKeepsGood(w: Window, older: seq<Seq64>, maxRetx: nat)
    requires Good(w, maxRetx)
    ensures Good(w.(frags := Bump(w.frags, older)), maxRetx)
  {
    RecountKeepsGood(w, Bump(w.frags, older), maxRetx);
  }

  lemma AcknowledgeKeepsGood(w: Window, k: Seq64, maxRetx: nat)
    requires Good(w, maxRetx) && k in w.frags && w.frags[k].netPkt in w.netPkts
    requires k in w.netPkts[w.frags[k].netPkt].unackedFrags
    ensures Good(Acknowledge(w, k), maxRetx)
  {
    AcknowledgeKeepsInv(w, k);
    SendsFewer(w.frags, w.sends, w.nHanded, maxRetx, w.frags - {k});
  }

  lemma ExhaustHistory(w: Window, k: Seq64, maxRetx: nat)
    requires Good(w, maxRetx) && k in w.frags && w.frags[k].netPkt in w.netPkts
    requires w.frags[k].retxCount >= maxRetx
    ensures var r := Exhaust(w, k);
            SendsInv(r.frags, r.sends, r.nHanded, maxRetx) && DropInv(r, maxRetx) && PktInv(r.frags) && r.acks == w.acks
  {
    var p := w.frags[k].netPkt;
    var ks := Others(w.netPkts[p].unackedFrags, k) + [k];
    DeleteFragsFrame(w, ks);
    SendsFewer(w.frags, w.sends, w.nHanded, maxRetx, w.frags - Elems(ks));
    assert w.sends[(p, w.frags[k].slot)] == maxRetx + 1;
    assert UsedUp(w.sends, p, maxRetx);
  }

  lemma RetransmitHistory(w: Window, k: Seq64, maxRetx: nat)
    requires ArcInv(w) && SendsInv(w.frags, w.sends, w.nHanded, maxRetx) && !RangeExceeded(w)
    requires k in w.frags && w.frags[k].netPkt in w.netPkts
    requires k in w.netPkts[w.frags[k].netPkt].unackedFrags
    requires w.frags[k].retxCount < maxRetx
    ensures var r := Retransmit(w, k);
            SendsInv(r.frags, r.sends, r.nHanded, maxRetx)
  {
    NextTxIsFresh(w);
    var tx, f := Plus(w.lastTx, 1), w.frags[k];
    SendsMove(w.frags, w.sends, w.nHanded, maxRetx, k, tx,
              UnackedFrag(f.pkt.(txSequence := Some(tx)), f.retxCount + 1, 0, f.netPkt, f.slot));
  }

  lemma RetransmitDrops(w: Window, k: Seq64, maxRetx: nat)
    requires Good(w, maxRetx) && k in w.frags && w.frags[k].netPkt in w.netPkts && !RangeExceeded(w)
    requires k in w.netPkts[w.frags[k].netPkt].unackedFrags
    requires w.frags[k].retxCount < maxRetx
    ensures var r := Retransmit(w, k);
            DropInv(r, maxRetx) && Fifo(r.acks) && PktInv(r.frags)
  {
    RetransmitHistory(w, k, maxRetx);
    var r := Retransmit(w, k);
    forall q | q in r.dropped
      ensures q < r.nHanded && q !in r.netPkts && UsedUp(r.sends, q, maxRetx)
    {
      UsedUpMonotone(w.sends, r.sends, q, maxRetx);
    }
    TransmitKeepsFifo(w.acks, w.frags[k].pkt.(txSequence := Some(Plus(w.lastTx, 1))));
  }

  lemma OnLostKeepsGood(w: Window, k: Seq64, opts: Options)
    requires Good(w, opts.maxRetx) && k in w.frags && w.frags[k].netPkt in w.netPkts
    requires k in w.netPkts[w.frags[k].netPkt].unackedFrags
    ensures OnLost(w, k, opts).Some? ==> Good(OnLost(w, k, opts).value, opts.maxRetx)
  {
    OnLostKeepsInv(w, k, opts);
    if w.frags[k].retxCount >= opts.maxRetx {
      ExhaustHistory(w, k, opts.maxRetx);
    } else if !RangeExceeded(w) {
      RetransmitHistory(w, k, opts.maxRetx);
      RetransmitDrops(w, k, opts.maxRetx);
    }
  }

  lemma OnLostFrame(w: Window, k: Seq64, opts: Options)
    requires k in w.frags && w.frags[k].netPkt in w.netPkts
    requires k in w.netPkts[w.frags[k].netPkt].unackedFrags
    ensures var r := OnLost(w, k, opts);
            r.Some? ==> r.value.nHanded == w.nHanded && r.value.acks.queued == w.acks.queued && r.value.acks.link == w.acks.link
  {
    DeleteFragsFrame(w, Others(w.netPkts[w.frags[k].netPkt].unackedFrags, k) + [k]);
  }

  /** onLpPacketLost takes no fragment out of the window without reporting its TxSequence. */
  lemma OnLostReportsRemovals(w: Window, k: Seq64, opts: Options, x: Seq64)
    requires Inv(w) && k in w.frags && w.frags[k].netPkt in w.netPkts
    requires k in w.netPkts[w.frags[k].netPkt].unackedFrags
    requires OnLost(w, k, opts).Some?
    ensures k in RemovedBy(w, k, opts) && k !in OnLost(w, k, opts).value.frags
    ensures x in w.frags ==> x in OnLost(w, k, opts).value.frags || x in RemovedBy(w, k, opts)
  {
    if w.frags[k].retxCount >= opts.maxRetx {
      var ks := Others(w.netPkts[w.frags[k].netPkt].unackedFrags, k) + [k];
      DeleteFragsFrame(w, ks);
    } else {
      NextTxIsFresh(w);
    }
  }

  /** The loop over the fragments considered lost by one ack.  The precondition is what keeps
      the assertion at the start of onLpPacketLost true: a TxSequence that has not been
      reported as removed is still outstanding. */
  function ProcessLost(w: Window, lost: seq<Seq64>, removed: set<Seq64>, opts: Options): (r: Option<Window>)
    requires Good(w, opts.maxRetx)
    requires forall x :: x in lost ==> x in removed || x in w.frags
    ensures r.Some? ==> Good(r.value, opts.maxRetx) && r.value.nHanded == w.nHanded && r.value.acks.queued == w.acks.queued && r.value.acks.link == w.acks.link
    decreases |lost|
  {
    if lost == [] then Some(w)
    else if lost[0] in removed then ProcessLost(w, lost[1..], removed, opts)
    else
      var k := lost[0];
      FragIsListed(w, k);
      OnLostKeepsGood(w, k, opts);
      OnLostFrame(w, k, opts);
      match OnLost(w, k, opts)
      case None => None
      case Some(w') =>
        StillOutstanding(w, lost, removed, opts);
        ProcessLost(w', lost[1..], removed + Elems(RemovedBy(w, k, opts)), opts)
  }

  lemma StillOutstanding(w: Window, lost: seq<Seq64>, removed: set<Seq64>, opts: Options)
    requires Inv(w) && lost != [] && lost[0] !in removed
    requires forall x :: x in lost ==> x in removed || x in w.frags
    requires w.frags[lost[0]].netPkt in w.netPkts
    requires lost[0] in w.netPkts[w.frags[lost[0]].netPkt].unackedFrags
    requires OnLost(w, lost[0], opts).Some?
    ensures forall x :: x in lost[1..] ==>
              x in removed + Elems(RemovedBy(w, lost[0], opts)) || x in OnLost(w, lost[0], opts).value.frags
  {
    forall x | x in lost[1..]
      ensures x in removed + Elems(RemovedBy(w, lost[0], opts)) || x in OnLost(w, lost[0], opts).value.frags
    {
      OnLostReportsRemovals(w, lost[0], opts, x);
    }
  }

  lemma ProcessLostStep(w: Window, lost: seq<Seq64>, i: nat, removed: set<Seq64>, opts: Options)
    requires Good(w, opts.maxRetx) && i < |lost|
    requires forall x :: x in lost[i..] ==> x in removed || x in w.frags
    ensures forall x :: x in lost[i + 1..] ==> x in removed || x in w.frags
    ensures lost[i] in removed ==>
              ProcessLost(w, lost[i..], removed, opts) == ProcessLost(w, lost[i + 1..], removed, opts)
    ensures lost[i] !in removed ==>
              && lost[i] in w.frags && w.frags[lost[i]].netPkt in w.netPkts
              && lost[i] in w.netPkts[w.frags[lost[i]].netPkt].unackedFrags
              && var r := OnLost(w, lost[i], opts);
                 var removed' := removed + Elems(RemovedBy(w, lost[i], opts));
                 && (r.None? ==> ProcessLost(w, lost[i..], removed, opts).None?)
                 && (r.Some? ==>
                       && Good(r.value, opts.maxRetx)
                       && (forall x :: x in lost[i + 1..] ==> x in removed' || x in r.value.frags)
                       && ProcessLost(w, lost[i..], removed, opts) ==
                          ProcessLost(r.value, lost[i + 1..], removed', opts))
  {
    assert lost[i..][1..] == lost[i + 1..] && lost[i..][0] == lost[i];
    assert forall x :: x in lost[i + 1..] ==> x in lost[i..];
    if lost[i] !in removed {
      assert lost[i] in lost[i..];
      FragIsListed(w, lost[i]);
      OnLostKeepsGood(w, lost[i], opts);
      if OnLost(w, lost[i], opts).Some? {
        StillOutstanding(w, lost[i..], removed, opts);
      }
    }
  }

  lemma QueueAckKeepsGood(w: Window, txSeq: Seq64, maxRetx: nat)
    requires Good(w, maxRetx)
    ensures Good(w.(acks := Push(w.acks, txSeq)), maxRetx)
  {
    GoodHasFifo(w, maxRetx);
    hide Fifo, Push;
    PushKeepsFifo(w.acks, txSeq);
    GoodWithAcks(w, Push(w.acks, txSeq), maxRetx);
  }

  lemma GoodHasFifo(w: Window, maxRetx: nat)
    requires Good(w, maxRetx)
    ensures Fifo(w.acks)
  {
  }

  lemma GoodWithAcks(w: Window, a: AckState, maxRetx: nat)
    requires Good(w, maxRetx) && Fifo(a)
    ensures Good(w.(acks := a), maxRetx)
  {
    hide Fifo;
  }

  lemma TransmitKeepsGood(w: Window, pkt: LpPacket, maxRetx: nat)
    requires Good(w, maxRetx) && pkt.acks == []
    ensures !IsBare(pkt) ==> Good(w.(acks := Transmit(w.acks, pkt)), maxRetx)
    ensures Good(w.(acks := Pass(w.acks, pkt)), maxRetx)
  {
    GoodHasFifo(w, maxRetx);
    hide Good, Fifo, Transmit, Pass, IsBare;
    if !IsBare(pkt) {
      TransmitKeepsFifo(w.acks, pkt);
      GoodWithAcks(w, Transmit(w.acks, pkt), maxRetx);
    }
    PassKeepsFifo(w.acks, pkt);
    GoodWithAcks(w, Pass(w.acks, pkt), maxRetx);
  }

  lemma LostStayOutstanding(w: Window, ack: Seq64, threshold: nat)
    requires Inv(w) && ack in w.frags
    ensures forall k :: k in Older(w, ack) ==> k in w.frags && k != ack
    ensures forall k :: k in Lost(w.frags, Older(w, ack), threshold) ==> k in w.frags && k != ack
  {
    forall k
      ensures k in Older(w, ack) ==> k in w.frags && k != ack
    {
      OlderElems(w, ack, k);
    }
    forall k
      ensures k in Lost(w.frags, Older(w, ack), threshold) ==> k in w.frags && k != ack
    {
      LostElems(w.frags, Older(w, ack), threshold, k);
    }
  }

  /** findLostLpPackets followed by onLpPacketAcknowledged. */
  function AckFrag(w: Window, ack: Seq64): (r: Window)
    requires Inv(w) && ack in w.frags
  {
    FragIsListed(w, ack);
    Acknowledge(w.(frags := Bump(w.frags, Older(w, ack))), ack)
  }

  lemma AckFragKeys(w: Window, ack: Seq64)
    requires Inv(w) && ack in w.frags
    ensures AckFrag(w, ack).frags.Keys == w.frags.Keys - {ack}
  {
  }

  lemma AckFragKeepsGood(w: Window, ack: Seq64, maxRetx: nat)
    requires Good(w, maxRetx) && ack in w.frags
    ensures Good(AckFrag(w, ack), maxRetx)
  {
    FragIsListed(w, ack);
    var w1 := w.(frags := Bump(w.frags, Older(w, ack)));
    assert Good(w1, maxRetx) by { BumpKeepsGood(w, Older(w, ack), maxRetx); }
    AcknowledgeKeepsGood(w1, ack, maxRetx);
  }

  /** One iteration of the ack loop of processIncomingPacket. */
  function ProcessAck(w: Window, ack: Seq64, opts: Options): (r: Option<Window>)
    requires Good(w, opts.maxRetx)
    ensures r.Some? ==> Good(r.value, opts.maxRetx) && r.value.nHanded == w.nHanded && r.value.acks.queued == w.acks.queued && r.value.acks.link == w.acks.link
  {
    if ack !in w.frags then Some(w)
    else
      LostStayOutstanding(w, ack, opts.seqNumLossThreshold);
      AckFragKeepsGood(w, ack, opts.maxRetx);
      AckFragKeys(w, ack);
      ProcessLost(AckFrag(w, ack), Lost(w.frags, Older(w, ack), opts.seqNumLossThreshold), {}, opts)
  }

  function ProcessAcks(w: Window, acks: seq<Seq64>, opts: Options): (r: Option<Window>)
    requires Good(w, opts.maxRetx)
    ensures r.Some? ==> Good(r.value, opts.maxRetx) && r.value.nHanded == w.nHanded && r.value.acks.queued == w.acks.queued && r.value.acks.link == w.acks.link
    decreases |acks|
  {
    if acks == [] then Some(w)
    else
      match ProcessAck(w, acks[0], opts)
      case None => None
      case Some(w') => ProcessAcks(w', acks[1..], opts)
  }

  // ---------------------------------------------------------------- runs

  /** What can happen to the window.  `Incoming` carries the Ack fields of a received packet
      and, if it has a Fragment and a TxSequence, that TxSequence; `RtoExpired` is the timer
      owned by an outstanding fragment; `Send` is any other packet passed to sendLpPacket,
      such as the fragments of a new network packet or an IDLE packet. */
  datatype Event =
    | Outgoing(frags: seq<LpPacket>, pkt: LpPacket, isInterest: bool)
    | Incoming(acks: seq<Seq64>, txSeq: Option<Seq64>)
    | RtoExpired(expired: Seq64)
    | Send(packet: LpPacket)

  ghost predicate Enabled(w: Window, e: Event) {
    match e
    case Outgoing(frags, _, _) => Handable(frags)
    case Incoming(_, _) => true
    case RtoExpired(txSeq) => txSeq in w.frags
    case Send(packet) => packet.acks == [] && !IsBare(packet)
  }

  function QueueAck(w: Window, txSeq: Option<Seq64>): (r: Window) {
    match txSeq
    case None => w
    case Some(t) => w.(acks := Push(w.acks, t))
  }

  /** None when assignTxSequence throws, which ends the run. */
  ghost function Step(w: Window, e: Event, opts: Options): (r: Option<Window>)
    requires Good(w, opts.maxRetx) && Enabled(w, e)
  {
    match e
    case Outgoing(frags, pkt, isInterest) => HandleOutgoing(w, frags, pkt, isInterest)
    case Incoming(acks, txSeq) =>
      (match ProcessAcks(w, acks, opts)
       case None => None
       case Some(w') => Some(QueueAck(w', txSeq)))
    case RtoExpired(txSeq) =>
      FragIsListed(w, txSeq);
      OnLost(w, txSeq, opts)
    case Send(packet) => Some(w.(acks := Transmit(w.acks, packet)))
  }

  lemma StepKeepsGood(w: Window, e: Event, opts: Options)
    requires Good(w, opts.maxRetx) && Enabled(w, e)
    ensures Step(w, e, opts).Some? ==> Good(Step(w, e, opts).value, opts.maxRetx)
  {
    hide Good, Transmit, Push;
    match e
    case Outgoing(frags, pkt, isInterest) => HandleOutgoingKeepsGood(w, frags, pkt, isInterest, opts.maxRetx);
    case Incoming(acks, txSeq) =>
      var r := ProcessAcks(w, acks, opts);
      if r.Some? && txSeq.Some? {
        QueueAckKeepsGood(r.value, txSeq.value, opts.maxRetx);
      }
    case RtoExpired(txSeq) =>
      GoodIsSound(w, opts.maxRetx);
      FragIsListed(w, txSeq);
      OnLostKeepsGood(w, txSeq, opts);
    case Send(packet) => TransmitKeepsGood(w, packet, opts.maxRetx);
  }

  lemma StepFrame(w: Window, e: Event, opts: Options)
    requires Good(w, opts.maxRetx) && Enabled(w, e)
    ensures var r := Step(w, e, opts);
            r.Some? ==>
              && r.value.nHanded == w.nHanded + (if e.Outgoing? then 1 else 0)
              && r.value.acks.queued == w.acks.queued + AcksQueued([e])
              && r.value.acks.link == w.acks.link
  {
    assert [e][..0] == [];
    match e
    case Outgoing(frags, pkt, isInterest) => AddFragsFrame(NewNetPkt(w, pkt, isInterest), w.nHanded, 0, frags);
    case Incoming(acks, txSeq) =>
    case RtoExpired(txSeq) =>
      FragIsListed(w, txSeq);
      OnLostFrame(w, txSeq, opts);
    case Send(packet) =>
  }

  lemma InitialIsGood(link: Link, maxRetx: nat)
    ensures Good(Initial(link), maxRetx)
  {
  }

  /** The window after the events `es`, oldest first; None if they are not the events of a
      run that got this far. */
  ghost function Run(es: seq<Event>, opts: Options): (r: Option<Window>)
    ensures r.Some? ==> Good(r.value, opts.maxRetx)
    decreases |es|
  {
    if es == [] then
      InitialIsGood(opts.link, opts.maxRetx);
      Some(Initial(opts.link))
    else
      match Run(es[..|es| - 1], opts)
      case None => None
      case Some(v) =>
        if Enabled(v, es[|es| - 1]) then
          StepKeepsGood(v, es[|es| - 1], opts);
          Step(v, es[|es| - 1], opts)
        else None
  }

  /** In every reachable state the first pointer is end() exactly if nothing is outstanding,
      all outstanding TxSequences lie on the arc from it to the last assigned one, and
      assignTxSequence throws exactly when the number it would assign is in use. */
  lemma WindowOnArcInEveryRun(es: seq<Event>, opts: Options)
    requires Run(es, opts).Some?
    ensures var w := Run(es, opts).value;
            && OnArc(w.frags.Keys, w.first, w.lastTx)
            && (RangeExceeded(w) <==> Plus(w.lastTx, 1) in w.frags)
  {
    var w := Run(es, opts).value;
    FreshUnlessFirst(w.frags.Keys, w.first, w.lastTx);
  }

  /** In every reachable state the fragment lists of the live network packets partition the
      outstanding fragments. */
  lemma ListsPartitionInEveryRun(es: seq<Event>, opts: Options, k: Seq64)
    requires Run(es, opts).Some?
    ensures var w := Run(es, opts).value;
            && (forall p :: p in w.netPkts ==> NoDup(w.netPkts[p].unackedFrags) && w.netPkts[p].unackedFrags != [])
            && (forall p :: p in w.netPkts && k in w.netPkts[p].unackedFrags ==>
                  k in w.frags && w.frags[k].netPkt == p)
            && (k in w.frags ==>
                  w.frags[k].netPkt in w.netPkts && k in w.netPkts[w.frags[k].netPkt].unackedFrags)
  {
    var w := Run(es, opts).value;
    forall p | p in w.netPkts && k in w.netPkts[p].unackedFrags
      ensures k in w.frags && w.frags[k].netPkt == p
    {
      assert Listed(w.frags, w.netPkts, p, k);
    }
    if k in w.frags {
      FragIsListed(w, k);
    }
  }

  function PacketsHanded(es: seq<Event>): (n: nat) {
    if es == [] then 0
    else PacketsHanded(es[..|es| - 1]) + if es[|es| - 1].Outgoing? then 1 else 0
  }

  lemma {:induction false} HandedIsCounted(es: seq<Event>, opts: Options)
    requires Run(es, opts).Some?
    ensures Run(es, opts).value.nHanded == PacketsHanded(es)
    decreases |es|
  {
    if es != [] {
      HandedIsCounted(es[..|es| - 1], opts);
      var v, e := Run(es[..|es| - 1], opts).value, es[|es| - 1];
      StepFrame(v, e, opts);
    }
  }

  /** Every network packet handed to handleOutgoing is accounted for: acknowledged without
      retransmission, acknowledged after one, given up, or still in flight. */
  lemma PacketsConservedInEveryRun(es: seq<Event>, opts: Options)
    requires Run(es, opts).Some?
    ensures var w := Run(es, opts).value;
            PacketsHanded(es) == w.nAcknowledged + w.nRetransmitted + w.nRetxExhausted + |w.netPkts|
  {
    HandedIsCounted(es, opts);
  }

  /** No fragment is sent more than 1 + maxRetx times; each network packet is reported as a
      dropped Interest at most once, after leaving the window, and only if one of its
      fragments was sent 1 + maxRetx times. */
  lemma RetransmissionsBoundedInEveryRun(es: seq<Event>, opts: Options, p: nat, s: nat)
    requires Run(es, opts).Some?
    ensures var w := Run(es, opts).value;
            && w.sends[(p, s)] <= 1 + opts.maxRetx
            && multiset(w.dropped)[p] <= 1
            && (p in w.dropped ==> p !in w.netPkts && exists t :: w.sends[(p, t)] == 1 + opts.maxRetx)
  {
    var w := Run(es, opts).value;
    NoDupCountsOnce(w.dropped, p);
    if p in w.dropped {
      assert UsedUp(w.sends, p, opts.maxRetx);
    }
  }

  lemma {:induction false} NoDupCountsOnce(s: seq<nat>, x: nat)
    requires NoDup(s)
    ensures multiset(s)[x] <= 1
  {
    if s != [] {
      NoDupCountsOnce(s[1..], x);
      assert s == [s[0]] + s[1..];
      assert multiset(s) == multiset{s[0]} + multiset(s[1..]);
      if s[0] == x {
        assert x !in s[1..];
        assert x !in multiset(s[1..]);
      }
    }
  }

  function AcksQueued(es: seq<Event>): (r: seq<Seq64>) {
    if es == [] then []
    else
      AcksQueued(es[..|es| - 1])
      + match es[|es| - 1]
        case Incoming(_, Some(t)) => [t]
        case _ => []
  }

  lemma {:induction false} AcksInEveryRun(es: seq<Event>, opts: Options)
    requires Run(es, opts).Some?
    ensures Run(es, opts).value.acks.queued == AcksQueued(es) && Run(es, opts).value.acks.link == opts.link
    decreases |es|
  {
    if es != [] {
      AcksInEveryRun(es[..|es| - 1], opts);
      var v, e := Run(es[..|es| - 1], opts).value, es[|es| - 1];
      StepFrame(v, e, opts);
    }
  }

  /** Over every run the acks of all received fragments are attached in the order of arrival,
      each to exactly one outgoing packet, or still wait in the queue.  What is on the packets
      passed to the transport, on those dropped as over the MTU, and in the queue adds up. */
  lemma AcksLeaveInOrderInEveryRun(es: seq<Event>, opts: Options)
    requires Run(es, opts).Some?
    ensures var a := Run(es, opts).value.acks;
            && AcksOn(a.attempts) + a.queue == AcksQueued(es)
            && multiset(AcksOn(SentOf(a.attempts))) + multiset(AcksOn(DroppedOf(a.attempts))) + multiset(a.queue)
               == multiset(AcksQueued(es))
  {
    AcksInEveryRun(es, opts);
    var a := Run(es, opts).value.acks;
    FifoMeans(a);
    SentAndDropped(a.attempts);
    assert multiset(AcksOn(a.attempts) + a.queue) == multiset(AcksOn(a.attempts)) + multiset(a.queue);
  }

  /** Over every run, exactly which acks are lost: a packet with acks is dropped, retransmission
      or not, if and only if the octets that piggyback left over are fewer than what the
      congestion mark and the growth of the TLV-LENGTH add afterwards. */
  lemma AcksLostInEveryRun(es: seq<Event>, opts: Options, i: nat)
    requires Run(es, opts).Some? && i < |Run(es, opts).value.acks.attempts|
    requires Run(es, opts).value.acks.attempts[i].acks != []
    ensures LostExactly(Run(es, opts).value.acks.attempts[i], opts.link.mtu(i), opts.link.congested(i))
  {
    hide LostExactly, Regular;
    AcksInEveryRun(es, opts);
    var a := Run(es, opts).value.acks;
    GoodHasFifo(Run(es, opts).value, opts.maxRetx);
    hide Run, Good;
    assert Regular(a.attempts[i], a.link.mtu(i), a.link.congested(i));
    AcksAreLostIff(a.attempts[i], opts.link.mtu(i), opts.link.congested(i));
  }
}
