/** What the send window holds and what it sends again: the fragments that were handed over,
    changed in their TxSequence only. */
module LpWindowContents {
  import opened Basics
  import opened LpPackets
  import opened TxRing
  import opened AckQueue
  import opened LpWindow
  import opened LpWindowInvariants
  import opened LpWindowRuns

  /** The fragments of each call of handleOutgoing, in order. */
  function Handed(es: seq<Event>): (r: seq<seq<LpPacket>>) {
    if es == [] then []
    else Handed(es[..|es| - 1]) + if es[|es| - 1].Outgoing? then [es[|es| - 1].frags] else []
  }

  /** The packets of the Send events. */
  function Passed(es: seq<Event>): (r: seq<LpPacket>) {
    if es == [] then []
    else Passed(es[..|es| - 1]) + if es[|es| - 1].Send? then [es[|es| - 1].packet] else []
  }

  /** `p` is fragment `s` of network packet `n`, with some TxSequence. */
  ghost predicate IsCopy(handed: seq<seq<LpPacket>>, n: nat, s: nat, p: LpPacket) {
    && n < |handed| && s < |handed[n]|
    && p.txSequence.Some? && p == handed[n][s].(txSequence := p.txSequence)
  }

  /** Every outstanding fragment is the one that its owner says, under its TxSequence. */
  ghost predicate Holds(frags: map<Seq64, UnackedFrag>, handed: seq<seq<LpPacket>>) {
    forall k :: k in frags ==> IsCopy(handed, frags[k].netPkt, frags[k].slot, frags[k].pkt) && frags[k].pkt.txSequence == Some(k)
  }

  ghost predicate IsRetransmission(handed: seq<seq<LpPacket>>, p: LpPacket) {
    exists n, s :: IsCopy(handed, n, s, p)
  }

  /** Every attempt is a packet of a Send event, or a handed fragment sent again. */
  ghost predicate Accounted(ts: seq<Attempt>, passed: seq<LpPacket>, handed: seq<seq<LpPacket>>) {
    forall i :: 0 <= i < |ts| ==> ts[i].packet in passed || IsRetransmission(handed, ts[i].packet)
  }

  ghost predicate Genuine(w: Window, passed: seq<LpPacket>, handed: seq<seq<LpPacket>>) {
    && w.nHanded == |handed|
    && Holds(w.frags, handed)
    && Accounted(w.acks.attempts, passed, handed)
  }

  // ---------------------------------------------------------------- one operation

  lemma CopyExtends(handed: seq<seq<LpPacket>>, frags: seq<LpPacket>, n: nat, s: nat, p: LpPacket)
    requires IsCopy(handed, n, s, p)
    ensures IsCopy(handed + [frags], n, s, p)
  {
  }

  lemma GenuineExtends(w: Window, passed: seq<LpPacket>, handed: seq<seq<LpPacket>>, frags: seq<LpPacket>)
    requires Genuine(w, passed, handed)
    ensures Holds(w.frags, handed + [frags]) && Accounted(w.acks.attempts, passed, handed + [frags])
  {
    var handed' := handed + [frags];
    hide IsCopy;
    forall k | k in w.frags
      ensures IsCopy(handed', w.frags[k].netPkt, w.frags[k].slot, w.frags[k].pkt)
    {
      CopyExtends(handed, frags, w.frags[k].netPkt, w.frags[k].slot, w.frags[k].pkt);
    }
    var ts := w.acks.attempts;
    forall i | 0 <= i < |ts|
      ensures ts[i].packet in passed || IsRetransmission(handed', ts[i].packet)
    {
      if ts[i].packet !in passed {
        var n, s :| IsCopy(handed, n, s, ts[i].packet);
        CopyExtends(handed, frags, n, s, ts[i].packet);
      }
    }
  }

  lemma {:induction false} AddFragsHolds(w: Window, p: nat, slot: nat, frags: seq<LpPacket>, handed: seq<seq<LpPacket>>)
    requires p in w.netPkts && Holds(w.frags, handed)
    requires p < |handed| && slot + |frags| == |handed[p]| && handed[p][slot..] == frags
    ensures var r := AddFrags(w, p, slot, frags);
            r.Some? ==> Holds(r.value.frags, handed) && r.value.acks == w.acks && r.value.nHanded == w.nHanded
    decreases |frags|
  {
    if frags != [] && !RangeExceeded(w) {
      var w' := AddFrag(w, p, slot, frags[0]).value;
      assert handed[p][slot] == frags[0];
      assert IsCopy(handed, p, slot, w'.frags[w'.lastTx].pkt);
      assert handed[p][slot + 1..] == frags[1..];
      AddFragsHolds(w', p, slot + 1, frags[1..], handed);
    }
  }

  lemma OutgoingKeeps(w: Window, frags: seq<LpPacket>, pkt: LpPacket, isInterest: bool, passed: seq<LpPacket>, handed: seq<seq<LpPacket>>)
    requires Genuine(w, passed, handed)
    ensures var r := HandleOutgoing(w, frags, pkt, isInterest);
            r.Some? ==> Genuine(r.value, passed, handed + [frags])
  {
    GenuineExtends(w, passed, handed, frags);
    var v := NewNetPkt(w, pkt, isInterest);
    assert (handed + [frags])[w.nHanded] == frags && frags[0..] == frags;
    AddFragsHolds(v, w.nHanded, 0, frags, handed + [frags]);
  }

  /** A retransmission sends the outstanding fragment again, with the new TxSequence. */
  lemma OnLostKeeps(w: Window, k: Seq64, opts: Options, passed: seq<LpPacket>, handed: seq<seq<LpPacket>>)
    requires Genuine(w, passed, handed) && Inv(w) && k in w.frags && w.frags[k].netPkt in w.netPkts
    requires k in w.netPkts[w.frags[k].netPkt].unackedFrags
    ensures var r := OnLost(w, k, opts);
      r.Some? ==>
        && Genuine(r.value, passed, handed)
        && (w.frags[k].retxCount < opts.maxRetx ==>
              && |r.value.acks.attempts| == |w.acks.attempts| + 1
              && IsCopy(handed, w.frags[k].netPkt, w.frags[k].slot, r.value.acks.attempts[|w.acks.attempts|].packet))
        && (w.frags[k].retxCount >= opts.maxRetx ==> r.value.acks == w.acks)
  {
    if w.frags[k].retxCount >= opts.maxRetx {
      DeleteFragsFrame(w, Others(w.netPkts[w.frags[k].netPkt].unackedFrags, k) + [k]);
    } else if !RangeExceeded(w) {
      var r := Retransmit(w, k);
      var sent := r.acks.attempts[|w.acks.attempts|].packet;
      assert IsCopy(handed, w.frags[k].netPkt, w.frags[k].slot, sent);
      assert IsRetransmission(handed, sent);
    }
  }

  lemma AckFragFrame(w: Window, ack: Seq64)
    requires Inv(w) && ack in w.frags
    ensures var r := AckFrag(w, ack);
      && r.acks == w.acks && r.nHanded == w.nHanded
      && (forall k :: k in r.frags ==>
            && k in w.frags && r.frags[k].pkt == w.frags[k].pkt
            && r.frags[k].netPkt == w.frags[k].netPkt && r.frags[k].slot == w.frags[k].slot)
  {
    FragIsListed(w, ack);
    hide ArcInv, ListInv, LiveInv, Conserved, RemoveSwap, FirstAfterErase;
  }

  lemma AcknowledgeKeeps(w: Window, ack: Seq64, passed: seq<LpPacket>, handed: seq<seq<LpPacket>>)
    requires Genuine(w, passed, handed) && Inv(w) && ack in w.frags
    ensures Genuine(AckFrag(w, ack), passed, handed)
  {
    AckFragFrame(w, ack);
    hide IsCopy, IsRetransmission, AckFrag, Inv;
  }

  lemma {:induction false} LostKeeps(w: Window, lost: seq<Seq64>, removed: set<Seq64>, opts: Options,
                                     passed: seq<LpPacket>, handed: seq<seq<LpPacket>>)
    requires Good(w, opts.maxRetx) && Genuine(w, passed, handed)
    requires forall x :: x in lost ==> x in removed || x in w.frags
    ensures var r := ProcessLost(w, lost, removed, opts);
            r.Some? ==> Genuine(r.value, passed, handed)
    decreases |lost|
  {
    hide Genuine;
    if lost == [] {
    } else if lost[0] in removed {
      LostKeeps(w, lost[1..], removed, opts, passed, handed);
    } else {
      var k := lost[0];
      FragIsListed(w, k);
      OnLostKeepsGood(w, k, opts);
      var r := OnLost(w, k, opts);
      if r.Some? {
        StillOutstanding(w, lost, removed, opts);
        OnLostKeeps(w, k, opts, passed, handed);
        LostKeeps(r.value, lost[1..], removed + Elems(RemovedBy(w, k, opts)), opts, passed, handed);
      }
    }
  }

  lemma AckKeeps(w: Window, ack: Seq64, opts: Options, passed: seq<LpPacket>, handed: seq<seq<LpPacket>>)
    requires Good(w, opts.maxRetx) && Genuine(w, passed, handed)
    ensures var r := ProcessAck(w, ack, opts);
            r.Some? ==> Genuine(r.value, passed, handed)
  {
    if ack in w.frags {
      LostStayOutstanding(w, ack, opts.seqNumLossThreshold);
      AckFragKeepsGood(w, ack, opts.maxRetx);
      AckFragKeys(w, ack);
      AcknowledgeKeeps(w, ack, passed, handed);
      LostKeeps(AckFrag(w, ack), Lost(w.frags, Older(w, ack), opts.seqNumLossThreshold), {}, opts, passed, handed);
    }
  }

  lemma {:induction false} AcksKeep(w: Window, acks: seq<Seq64>, opts: Options, passed: seq<LpPacket>, handed: seq<seq<LpPacket>>)
    requires Good(w, opts.maxRetx) && Genuine(w, passed, handed)
    ensures var r := ProcessAcks(w, acks, opts);
            r.Some? ==> Genuine(r.value, passed, handed)
    decreases |acks|
  {
    hide Good, Genuine, ProcessAck;
    if acks != [] {
      AckKeeps(w, acks[0], opts, passed, handed);
      var r := ProcessAck(w, acks[0], opts);
      if r.Some? {
        AcksKeep(r.value, acks[1..], opts, passed, handed);
      }
    }
  }

  lemma SendKeeps(w: Window, packet: LpPacket, passed: seq<LpPacket>, handed: seq<seq<LpPacket>>)
    requires Genuine(w, passed, handed)
    ensures Genuine(w.(acks := Transmit(w.acks, packet)), passed + [packet], handed)
  {
    hide IsCopy, IsRetransmission;
  }

  // ---------------------------------------------------------------- runs

  lemma StepKeeps(w: Window, e: Event, opts: Options, passed: seq<LpPacket>, handed: seq<seq<LpPacket>>)
    requires Good(w, opts.maxRetx) && Enabled(w, e) && Genuine(w, passed, handed)
    ensures var r := Step(w, e, opts);
      r.Some? ==> Genuine(r.value, if e.Send? then passed + [e.packet] else passed, if e.Outgoing? then handed + [e.frags] else handed)
  {
    match e
    case Outgoing(frags, pkt, isInterest) => OutgoingKeeps(w, frags, pkt, isInterest, passed, handed);
    case Incoming(acks, txSeq) =>
      AcksKeep(w, acks, opts, passed, handed);
      hide IsCopy, IsRetransmission, ProcessAcks;
    case RtoExpired(txSeq) =>
      FragIsListed(w, txSeq);
      OnLostKeeps(w, txSeq, opts, passed, handed);
    case Send(packet) => SendKeeps(w, packet, passed, handed);
  }

  /** Over every run, each outstanding fragment with owner (n, s) is fragment `s` of the n-th packet
      handed over, changed only in its TxSequence; and each packet passed to sendLpPacket is one of
      the Send events or such a fragment sent again. */
  lemma {:induction false} ContentsInEveryRun(es: seq<Event>, opts: Options)
    requires Run(es, opts).Some?
    ensures Genuine(Run(es, opts).value, Passed(es), Handed(es))
    decreases |es|
  {
    hide Good, Step, Enabled;
    if es == [] {
    } else {
      ContentsInEveryRun(es[..|es| - 1], opts);
      var v, e := Run(es[..|es| - 1], opts).value, es[|es| - 1];
      hide Genuine;
      StepKeeps(v, e, opts, Passed(es[..|es| - 1]), Handed(es[..|es| - 1]));
      assert Passed(es) == if e.Send? then Passed(es[..|es| - 1]) + [e.packet] else Passed(es[..|es| - 1]);
      assert Handed(es) == if e.Outgoing? then Handed(es[..|es| - 1]) + [e.frags] else Handed(es[..|es| - 1]);
    }
  }
}
