/** What each event does to the fragments it concerns, and to no others: what handing over, loss, an
    ack and giving up mean for one outstanding fragment. */
module LpWindowEffects {
  import opened Basics
  import opened LpPackets
  import opened TxRing
  import AckQueue
  import opened LpWindow
  import opened LpWindowInvariants
  import opened LpWindowRuns
  import Loss = LpWindowLoss

  // ---------------------------------------------------------------- handing over

  lemma {:induction false} AddFragsEffect(w: Window, p: nat, slot: nat, frags: seq<LpPacket>, tx: Seq64)
    requires ArcInv(w) && p in w.netPkts && tx in w.frags
    ensures var r := AddFrags(w, p, slot, frags);
      r.Some? ==> tx in r.value.frags && r.value.frags[tx] == w.frags[tx]
    decreases |frags|
  {
    if frags != [] && !RangeExceeded(w) {
      NextTxIsFresh(w);
      AddFragArc(w, p, slot, frags[0]);
      AddFragsEffect(AddFrag(w, p, slot, frags[0]).value, p, slot + 1, frags[1..], tx);
    }
  }

  lemma {:induction false} AddedIsOutstanding(w: Window, p: nat, slot: nat, frags: seq<LpPacket>, s: nat)
    requires ArcInv(w) && p in w.netPkts && s < |frags| < TWO64
    ensures var r := AddFrags(w, p, slot, frags);
      r.Some? ==>
        var tx := Plus(w.lastTx, s + 1);
        tx in r.value.frags && r.value.frags[tx] == UnackedFrag(frags[s].(txSequence := Some(tx)), 0, 0, p, slot + s)
    decreases |frags|
  {
    if !RangeExceeded(w) {
      var w' := AddFrag(w, p, slot, frags[0]).value;
      AddFragArc(w, p, slot, frags[0]);
      if s == 0 {
        AddFragsEffect(w', p, slot + 1, frags[1..], Plus(w.lastTx, 1));
      } else {
        AddedIsOutstanding(w', p, slot + 1, frags[1..], s - 1);
      }
    }
  }

  /** Fragment `s` of a packet handed over is outstanding under the s-th next TxSequence, not yet
      sent again, and fragments outstanding before are untouched. */
  lemma HandedIsOutstanding(w: Window, frags: seq<LpPacket>, pkt: LpPacket, isInterest: bool, s: nat, x: Seq64)
    requires ArcInv(w) && s < |frags| < TWO64
    ensures var r := HandleOutgoing(w, frags, pkt, isInterest);
      r.Some? ==>
        var tx := Plus(w.lastTx, s + 1);
        && tx in r.value.frags
        && r.value.frags[tx] == UnackedFrag(frags[s].(txSequence := Some(tx)), 0, 0, w.nHanded, s)
        && (x in w.frags ==> x in r.value.frags && r.value.frags[x] == w.frags[x])
        && w.nHanded in r.value.netPkts && r.value.netPkts[w.nHanded].isInterest == isInterest
  {
    var v := NewNetPkt(w, pkt, isInterest);
    AddedIsOutstanding(v, w.nHanded, 0, frags, s);
    if x in w.frags {
      AddFragsEffect(v, w.nHanded, 0, frags, x);
    }
    AddFragsKind(v, w.nHanded, 0, frags);
  }

  /** The first fragment of all is sent with TxSequence 0. */
  lemma NumberingStartsAtZero(link: AckQueue.Link, frags: seq<LpPacket>, pkt: LpPacket, isInterest: bool, s: nat)
    requires s < |frags| < TWO64
    ensures var r := HandleOutgoing(Initial(link), frags, pkt, isInterest);
      r.Some? ==> s in r.value.frags && r.value.frags[s].pkt == frags[s].(txSequence := Some(s))
  {
    HandedIsOutstanding(Initial(link), frags, pkt, isInterest, s, 0);
  }

  lemma {:induction false} AddFragsKind(w: Window, p: nat, slot: nat, frags: seq<LpPacket>)
    requires p in w.netPkts
    ensures var r := AddFrags(w, p, slot, frags);
      r.Some? ==> r.value.netPkts[p].isInterest == w.netPkts[p].isInterest
    decreases |frags|
  {
    if frags != [] && !RangeExceeded(w) {
      AddFragsKind(AddFrag(w, p, slot, frags[0]).value, p, slot + 1, frags[1..]);
    }
  }

  // ---------------------------------------------------------------- loss

  /** `g` is `f` sent once more. */
  predicate IsAgain(f: UnackedFrag, g: UnackedFrag) {
    && g.pkt == f.pkt.(txSequence := g.pkt.txSequence)
    && g.retxCount == f.retxCount + 1 && g.nGreaterSeqAcks == 0
    && g.netPkt == f.netPkt && g.slot == f.slot
  }

  /** The fragment is outstanding again, under some new TxSequence. */
  ghost predicate Again(f: UnackedFrag, r: Window) {
    exists y :: y in r.frags && IsAgain(f, r.frags[y])
  }

  /** A lost fragment with retries left is sent again under the next TxSequence; without, all
      fragments of its packet leave and an Interest is reported.  No other fragment changes. */
  lemma LossEffect(w: Window, k: Seq64, opts: Options, x: Seq64)
    requires Inv(w) && k in w.frags && w.frags[k].netPkt in w.netPkts
    requires k in w.netPkts[w.frags[k].netPkt].unackedFrags && OnLost(w, k, opts).Some?
    ensures var r, f := OnLost(w, k, opts).value, w.frags[k];
      if f.retxCount < opts.maxRetx then
        var tx := Plus(w.lastTx, 1);
        && tx !in w.frags && k !in r.frags && tx in r.frags && IsAgain(f, r.frags[tx]) && r.frags[tx].pkt.txSequence == Some(tx)
        && (x in w.frags && x != k ==> x in r.frags && r.frags[x] == w.frags[x])
        && (x in r.frags ==> x == tx || x in w.frags)
        && r.netPkts.Keys == w.netPkts.Keys && r.dropped == w.dropped && r.nRetxExhausted == w.nRetxExhausted
      else
        && (x in r.frags <==> x in w.frags && w.frags[x].netPkt != f.netPkt)
        && (x in r.frags ==> r.frags[x] == w.frags[x])
        && r.netPkts == w.netPkts - {f.netPkt} && r.nRetxExhausted == w.nRetxExhausted + 1
        && r.dropped == w.dropped + if w.netPkts[f.netPkt].isInterest then [f.netPkt] else []
  {
    if w.frags[k].retxCount < opts.maxRetx {
      NextTxIsFresh(w);
    } else {
      ExhaustRemoves(w, k);
      DeleteFragsFrame(w, Others(w.netPkts[w.frags[k].netPkt].unackedFrags, k) + [k]);
    }
  }

  /** After the loop over the lost fragments: unless its packet was given up, a lost fragment has
      been sent again and any other is untouched; one without retries takes its packet with it. */
  lemma {:induction false} LostEffect(w: Window, lost: seq<Seq64>, removed: set<Seq64>, opts: Options, x: Seq64)
    requires Good(w, opts.maxRetx) && x in w.frags
    requires forall y :: y in lost ==> y in removed || y in w.frags
    ensures var r, f, hit := ProcessLost(w, lost, removed, opts), w.frags[x], x in lost && x !in removed;
      r.Some? ==>
        && (f.netPkt in r.value.netPkts ==>
              if hit then Again(f, r.value) else x in r.value.frags && r.value.frags[x] == f)
        && (hit && f.retxCount >= opts.maxRetx ==> f.netPkt !in r.value.netPkts)
    decreases |lost|
  {
    hide Good, Inv;
    if lost == [] {
    } else if lost[0] in removed {
      LostEffect(w, lost[1..], removed, opts, x);
    } else {
      var k := lost[0];
      GoodIsSound(w, opts.maxRetx);
      FragIsListed(w, k);
      var r := OnLost(w, k, opts);
      if r.Some? {
        OnLostKeepsGood(w, k, opts);
        StillOutstanding(w, lost, removed, opts);
        LossEffect(w, k, opts, x);
        var removed' := removed + Elems(RemovedBy(w, k, opts));
        LostNeverReturns(r.value, lost[1..], removed', opts);
        ReportedAreSiblings(w, k, opts, x);
        if x in r.value.frags && r.value.frags[x] == w.frags[x] {
          LostEffect(r.value, lost[1..], removed', opts, x);
        } else if x == k && w.frags[k].retxCount < opts.maxRetx {
          LostEffect(r.value, lost[1..], removed', opts, Plus(w.lastTx, 1));
        }
      }
    }
  }

  /** A packet given up stays given up. */
  lemma {:induction false} LostNeverReturns(w: Window, lost: seq<Seq64>, removed: set<Seq64>, opts: Options)
    requires Good(w, opts.maxRetx)
    requires forall y :: y in lost ==> y in removed || y in w.frags
    ensures var r := ProcessLost(w, lost, removed, opts);
      r.Some? ==> r.value.netPkts.Keys <= w.netPkts.Keys
    decreases |lost|
  {
    hide Good, Inv;
    if lost == [] {
    } else if lost[0] in removed {
      LostNeverReturns(w, lost[1..], removed, opts);
    } else {
      var k := lost[0];
      GoodIsSound(w, opts.maxRetx);
      FragIsListed(w, k);
      if OnLost(w, k, opts).Some? {
        OnLostKeepsGood(w, k, opts);
        StillOutstanding(w, lost, removed, opts);
        LossEffect(w, k, opts, k);
        LostNeverReturns(OnLost(w, k, opts).value, lost[1..], removed + Elems(RemovedBy(w, k, opts)), opts);
      }
    }
  }

  /** Only fragments of the same packet are reported beside the lost one, and only if it is given up. */
  lemma ReportedAreSiblings(w: Window, k: Seq64, opts: Options, x: Seq64)
    requires ListInv(w) && k in w.frags && w.frags[k].netPkt in w.netPkts
    ensures x in RemovedBy(w, k, opts) ==>
      x == k || (w.frags[k].retxCount >= opts.maxRetx && x in w.frags && w.frags[x].netPkt == w.frags[k].netPkt)
  {
    ExhaustRemoves(w, k);
  }

  /** Fragment `s` of packet `n` is outstanding. */
  ghost predicate Outstanding(w: Window, n: nat, s: nat) {
    exists k :: k in w.frags && w.frags[k].netPkt == n && w.frags[k].slot == s
  }

  /** Some lost fragment of the packet has no retries left. */
  ghost predicate OutOfRetries(w: Window, lost: seq<Seq64>, removed: set<Seq64>, n: nat, maxRetx: nat) {
    exists y :: y in lost && y !in removed && y in w.frags && w.frags[y].netPkt == n && w.frags[y].retxCount >= maxRetx
  }

  /** The loop gives up no packet without a lost fragment that has no retries left, and makes no
      fragment outstanding that was not. */
  lemma {:induction false} LossNeedsCause(w: Window, lost: seq<Seq64>, removed: set<Seq64>, opts: Options, n: nat, s: nat)
    requires Good(w, opts.maxRetx)
    requires forall y :: y in lost ==> y in removed || y in w.frags
    ensures var r := ProcessLost(w, lost, removed, opts);
      r.Some? ==>
        && (n in w.netPkts && n !in r.value.netPkts ==> OutOfRetries(w, lost, removed, n, opts.maxRetx))
        && (Outstanding(r.value, n, s) ==> Outstanding(w, n, s))
    decreases |lost|
  {
    hide Good, Inv, Outstanding, OutOfRetries;
    if lost == [] {
    } else if lost[0] in removed {
      LossNeedsCause(w, lost[1..], removed, opts, n, s);
      CauseLasts(w, w, lost, removed, removed, n, opts.maxRetx);
    } else {
      var k := lost[0];
      GoodIsSound(w, opts.maxRetx);
      FragIsListed(w, k);
      var r := OnLost(w, k, opts);
      if r.Some? {
        OnLostKeepsGood(w, k, opts);
        StillOutstanding(w, lost, removed, opts);
        var removed' := removed + Elems(RemovedBy(w, k, opts));
        LossNeedsCause(r.value, lost[1..], removed', opts, n, s);
        forall x
          ensures x in r.value.frags && x in lost[1..] && x !in removed' ==> x in w.frags && r.value.frags[x] == w.frags[x]
        {
          LossEffect(w, k, opts, x);
          assert x in lost[1..] ==> x in lost;
        }
        CauseLasts(w, r.value, lost, removed, removed', n, opts.maxRetx);
        LossEffect(w, k, opts, k);
        assert n == w.frags[k].netPkt && w.frags[k].retxCount >= opts.maxRetx ==> OutOfRetries(w, lost, removed, n, opts.maxRetx) by {
          CauseIs(w, lost, removed, k, opts.maxRetx);
        }
        NothingNew(w, k, opts, n, s);
      }
    }
  }

  lemma CauseIs(w: Window, lost: seq<Seq64>, removed: set<Seq64>, y: Seq64, maxRetx: nat)
    requires y in lost && y !in removed && y in w.frags
    ensures w.frags[y].retxCount >= maxRetx ==> OutOfRetries(w, lost, removed, w.frags[y].netPkt, maxRetx)
  {
  }

  lemma CauseLasts(w: Window, v: Window, lost: seq<Seq64>, removed: set<Seq64>, removed': set<Seq64>, n: nat, maxRetx: nat)
    requires lost != [] && removed <= removed'
    requires forall x :: x in v.frags && x in lost[1..] && x !in removed' ==> x in w.frags && v.frags[x] == w.frags[x]
    ensures OutOfRetries(v, lost[1..], removed', n, maxRetx) ==> OutOfRetries(w, lost, removed, n, maxRetx)
  {
  }

  lemma NothingNew(w: Window, k: Seq64, opts: Options, n: nat, s: nat)
    requires Inv(w) && k in w.frags && w.frags[k].netPkt in w.netPkts
    requires k in w.netPkts[w.frags[k].netPkt].unackedFrags && OnLost(w, k, opts).Some?
    ensures Outstanding(OnLost(w, k, opts).value, n, s) ==> Outstanding(w, n, s)
  {
    var r := OnLost(w, k, opts).value;
    if Outstanding(r, n, s) {
      var x :| x in r.frags && r.frags[x].netPkt == n && r.frags[x].slot == s;
      LossEffect(w, k, opts, x);
      assert x in w.frags || (w.frags[k].netPkt == n && w.frags[k].slot == s);
    }
  }

  // ---------------------------------------------------------------- acks

  lemma OneAck(w: Window, ack: Seq64, opts: Options)
    requires Good(w, opts.maxRetx)
    ensures ProcessAcks(w, [ack], opts) == ProcessAck(w, ack, opts)
  {
    hide Good, ProcessAck;
    assert [ack][0] == ack && [ack][1..] == [];
    var r := ProcessAck(w, ack, opts);
    if r.Some? {
      assert ProcessAcks(r.value, [], opts) == r;
    }
  }

  lemma OneAckStep(w: Window, ack: Seq64, txSeq: Option<Seq64>, opts: Options)
    requires Good(w, opts.maxRetx)
    ensures var r, v := Step(w, Incoming([ack], txSeq), opts), ProcessAck(w, ack, opts);
      (r.Some? <==> v.Some?) && (r.Some? ==> r.value == v.value.(acks := r.value.acks))
  {
    OneAck(w, ack, opts);
    hide Good, ProcessAck, ProcessAcks;
  }

  /** An ack of a TxSequence that is not outstanding changes no fragment, packet or counter. */
  lemma UnknownAckIsIgnored(w: Window, ack: Seq64, txSeq: Option<Seq64>, opts: Options)
    requires Good(w, opts.maxRetx) && ack !in w.frags
    ensures var r := Step(w, Incoming([ack], txSeq), opts);
      r.Some? && r.value == w.(acks := r.value.acks)
  {
    OneAckStep(w, ack, txSeq, opts);
    hide Good, Step;
  }

  /** Circularly older than the acknowledged fragment. */
  predicate IsOlder(w: Window, x: Seq64, ack: Seq64) {
    w.first.Some? && Dist(w.first.value, x) < Dist(w.first.value, ack)
  }

  /** The ack makes this fragment count as lost. */
  predicate IsLostBy(w: Window, x: Seq64, ack: Seq64, threshold: nat) {
    x in w.frags && IsOlder(w, x, ack) && w.frags[x].nGreaterSeqAcks + 1 >= threshold
  }

  lemma AckFragEffect(w: Window, ack: Seq64, threshold: nat, x: Seq64)
    requires Inv(w) && ack in w.frags && x in w.frags
    ensures var r, f := AckFrag(w, ack), w.frags[x];
      && r.frags.Keys == w.frags.Keys - {ack}
      && (x != ack ==> r.frags[x] == f.(nGreaterSeqAcks := f.nGreaterSeqAcks + if IsOlder(w, x, ack) then 1 else 0))
      && (forall k :: k in Older(w, ack) ==> k in w.frags)
      && (x in Lost(w.frags, Older(w, ack), threshold) <==> IsLostBy(w, x, ack, threshold))
  {
    FindLostIsExact(w, ack, threshold, x);
    FragIsListed(w, ack);
    AckFragKeys(w, ack);
    hide ArcInv, ListInv, LiveInv, Conserved, RemoveSwap, FirstAfterErase, Older, Lost;
  }

  /** What an ack of an outstanding TxSequence does to any other fragment: if it is older and has now
      been passed by enough acks, it is sent again; if it is older, it counts one more ack; else it
      is untouched; always unless its packet is given up. */
  lemma AckEffect(w: Window, ack: Seq64, txSeq: Option<Seq64>, opts: Options, x: Seq64)
    requires Good(w, opts.maxRetx) && ack in w.frags && x in w.frags && x != ack
    requires Step(w, Incoming([ack], txSeq), opts).Some?
    ensures var r, f := Step(w, Incoming([ack], txSeq), opts).value, w.frags[x];
      && (f.netPkt in r.netPkts ==>
            if IsLostBy(w, x, ack, opts.seqNumLossThreshold) then Again(f, r)
            else x in r.frags && r.frags[x] == f.(nGreaterSeqAcks := f.nGreaterSeqAcks + if IsOlder(w, x, ack) then 1 else 0))
      && (IsLostBy(w, x, ack, opts.seqNumLossThreshold) && f.retxCount >= opts.maxRetx ==> f.netPkt !in r.netPkts)
  {
    OneAckStep(w, ack, txSeq, opts);
    GoodIsSound(w, opts.maxRetx);
    AckFragEffect(w, ack, opts.seqNumLossThreshold, x);
    LostStayOutstanding(w, ack, opts.seqNumLossThreshold);
    AckFragKeepsGood(w, ack, opts.maxRetx);
    var v, lost := AckFrag(w, ack), Lost(w.frags, Older(w, ack), opts.seqNumLossThreshold);
    hide Good, Inv, Step, AckFrag, Lost, Older, IsLostBy, IsOlder;
    LostEffect(v, lost, {}, opts, x);
    AgainDespiteCount(w.frags[x], v.frags[x], ProcessAck(w, ack, opts).value, Step(w, Incoming([ack], txSeq), opts).value);
  }

  lemma AgainDespiteCount(f: UnackedFrag, g: UnackedFrag, v: Window, r: Window)
    requires g == f.(nGreaterSeqAcks := g.nGreaterSeqAcks) && r.frags == v.frags
    ensures Again(g, v) ==> Again(f, r)
  {
    if Again(g, v) {
      var y :| y in v.frags && IsAgain(g, v.frags[y]);
      assert y in r.frags && IsAgain(f, r.frags[y]);
    }
  }

  /** What it does to the fragment itself and to whole packets: the acknowledged fragment is not
      outstanding any more under any TxSequence, nothing becomes outstanding that was not, and a
      packet ends only if this was its last fragment or a lost one has no retries left. */
  lemma AckEnds(w: Window, ack: Seq64, txSeq: Option<Seq64>, opts: Options, n: nat, s: nat)
    requires Good(w, opts.maxRetx) && ack in w.frags && Step(w, Incoming([ack], txSeq), opts).Some?
    ensures var r, acked := Step(w, Incoming([ack], txSeq), opts).value, w.frags[ack];
      && (Outstanding(r, n, s) ==> Outstanding(w, n, s) && (n, s) != (acked.netPkt, acked.slot))
      && (n in w.netPkts && n !in r.netPkts ==>
            || (n == acked.netPkt && forall k :: k in w.frags && w.frags[k].netPkt == n ==> k == ack)
            || GivesUp(w, ack, opts, n))
  {
    OneAckStep(w, ack, txSeq, opts);
    GoodIsSound(w, opts.maxRetx);
    LostStayOutstanding(w, ack, opts.seqNumLossThreshold);
    AckFragKeepsGood(w, ack, opts.maxRetx);
    AckFragKeys(w, ack);
    AckedIsGone(w, ack, opts.maxRetx, n, s);
    AckedPackets(w, ack, n);
    CauseOfAck(w, ack, opts, n);
    hide Good, Inv, Step, AckFrag, Lost, Older, Outstanding, OutOfRetries, GivesUp;
    LossNeedsCause(AckFrag(w, ack), Lost(w.frags, Older(w, ack), opts.seqNumLossThreshold), {}, opts, n, s);
    SameOutstanding(ProcessAck(w, ack, opts).value, Step(w, Incoming([ack], txSeq), opts).value, n, s);
  }

  /** The ack makes a fragment of the packet count as lost that has no retries left. */
  ghost predicate GivesUp(w: Window, ack: Seq64, opts: Options, n: nat) {
    exists y :: IsLostBy(w, y, ack, opts.seqNumLossThreshold) && w.frags[y].netPkt == n && w.frags[y].retxCount >= opts.maxRetx
  }

  lemma CauseOfAck(w: Window, ack: Seq64, opts: Options, n: nat)
    requires Inv(w) && ack in w.frags && forall k :: k in Older(w, ack) ==> k in w.frags
    ensures OutOfRetries(AckFrag(w, ack), Lost(w.frags, Older(w, ack), opts.seqNumLossThreshold), {}, n, opts.maxRetx) ==>
      GivesUp(w, ack, opts, n)
  {
    var v, lost := AckFrag(w, ack), Lost(w.frags, Older(w, ack), opts.seqNumLossThreshold);
    hide AckFrag, Lost, Older, Inv;
    if OutOfRetries(v, lost, {}, n, opts.maxRetx) {
      var y :| y in lost && y in v.frags && v.frags[y].netPkt == n && v.frags[y].retxCount >= opts.maxRetx;
      AckFragKeys(w, ack);
      AckFragEffect(w, ack, opts.seqNumLossThreshold, y);
    }
  }

  lemma SameOutstanding(v: Window, r: Window, n: nat, s: nat)
    requires r.frags == v.frags
    ensures Outstanding(r, n, s) <==> Outstanding(v, n, s)
  {
  }

  lemma AckedIsGone(w: Window, ack: Seq64, maxRetx: nat, n: nat, s: nat)
    requires Good(w, maxRetx) && ack in w.frags
    ensures Outstanding(AckFrag(w, ack), n, s) ==> Outstanding(w, n, s) && (n, s) != (w.frags[ack].netPkt, w.frags[ack].slot)
  {
    var v := AckFrag(w, ack);
    if Outstanding(v, n, s) {
      var k :| k in v.frags && v.frags[k].netPkt == n && v.frags[k].slot == s;
      AckFragEffect(w, ack, 0, ack);
      AckFragEffect(w, ack, 0, k);
    }
  }

  lemma AckedPackets(w: Window, ack: Seq64, n: nat)
    requires Inv(w) && ack in w.frags
    ensures n in w.netPkts && n !in AckFrag(w, ack).netPkts ==>
      n == w.frags[ack].netPkt && forall k :: k in w.frags && w.frags[k].netPkt == n ==> k == ack
  {
    FragIsListed(w, ack);
    Loss.CompletedMeansLast(w, ack);
  }

  lemma {:induction false} AcksSplit(w: Window, a: seq<Seq64>, b: seq<Seq64>, opts: Options)
    requires Good(w, opts.maxRetx)
    ensures ProcessAcks(w, a + b, opts) ==
      match ProcessAcks(w, a, opts) case None => None case Some(v) => ProcessAcks(v, b, opts)
    decreases |a|
  {
    hide Good, ProcessAck;
    if a == [] {
      assert a + b == b;
    } else {
      assert (a + b)[0] == a[0] && (a + b)[1..] == a[1..] + b;
      if ProcessAck(w, a[0], opts).Some? {
        AcksSplit(ProcessAck(w, a[0], opts).value, a[1..], b, opts);
      }
    }
  }

  /** The acks of one packet work like so many packets with one ack each. */
  lemma AcksOneByOne(w: Window, a: seq<Seq64>, b: seq<Seq64>, txSeq: Option<Seq64>, opts: Options)
    requires Good(w, opts.maxRetx)
    ensures Step(w, Incoming(a, None), opts).Some? ==> Good(Step(w, Incoming(a, None), opts).value, opts.maxRetx)
    ensures Step(w, Incoming(a + b, txSeq), opts) ==
      match Step(w, Incoming(a, None), opts) case None => None case Some(v) => Step(v, Incoming(b, txSeq), opts)
  {
    hide Good, ProcessAck;
    AcksSplit(w, a, b, opts);
  }

  // ---------------------------------------------------------------- reports of dropped Interests

  /** For each packet handed over, whether it was an Interest. */
  function Kinds(es: seq<Event>): (r: seq<bool>) {
    if es == [] then []
    else
      var e := es[|es| - 1];
      if e.Outgoing? then Kinds(es[..|es| - 1]) + [e.isInterest] else Kinds(es[..|es| - 1])
  }

  /** No packet changes its kind, and only Interests are newly reported. */
  ghost predicate KeepsKinds(w: Window, r: Window) {
    && r.nHanded == w.nHanded
    && (forall p :: p in r.netPkts ==> p in w.netPkts && r.netPkts[p].isInterest == w.netPkts[p].isInterest)
    && (forall p :: p in r.dropped ==> p in w.dropped || (p in w.netPkts && w.netPkts[p].isInterest))
  }

  lemma KindsTrans(w: Window, v: Window, r: Window)
    requires KeepsKinds(w, v) && KeepsKinds(v, r)
    ensures KeepsKinds(w, r)
  {
  }

  lemma OnLostKinds(w: Window, k: Seq64, opts: Options)
    requires Inv(w) && k in w.frags && w.frags[k].netPkt in w.netPkts
    requires k in w.netPkts[w.frags[k].netPkt].unackedFrags && OnLost(w, k, opts).Some?
    ensures KeepsKinds(w, OnLost(w, k, opts).value)
  {
    LossEffect(w, k, opts, k);
    OnLostFrame(w, k, opts);
  }

  lemma {:induction false} LostKinds(w: Window, lost: seq<Seq64>, removed: set<Seq64>, opts: Options)
    requires Good(w, opts.maxRetx)
    requires forall y :: y in lost ==> y in removed || y in w.frags
    ensures var r := ProcessLost(w, lost, removed, opts);
      r.Some? ==> KeepsKinds(w, r.value)
    decreases |lost|
  {
    if lost == [] {
    } else if lost[0] in removed {
      LostKinds(w, lost[1..], removed, opts);
    } else {
      var k := lost[0];
      GoodIsSound(w, opts.maxRetx);
      hide Good, Inv, KeepsKinds;
      FragIsListed(w, k);
      var r := OnLost(w, k, opts);
      if r.Some? {
        OnLostKeepsGood(w, k, opts);
        StillOutstanding(w, lost, removed, opts);
        OnLostKinds(w, k, opts);
        var removed' := removed + Elems(RemovedBy(w, k, opts));
        LostKinds(r.value, lost[1..], removed', opts);
        var q := ProcessLost(r.value, lost[1..], removed', opts);
        if q.Some? {
          KindsTrans(w, r.value, q.value);
        }
      }
    }
  }

  lemma AckFragKinds(w: Window, ack: Seq64)
    requires Inv(w) && ack in w.frags
    ensures KeepsKinds(w, AckFrag(w, ack))
  {
    hide ArcInv, ListInv, LiveInv, Conserved, RemoveSwap, FirstAfterErase, Older;
    FragIsListed(w, ack);
  }

  lemma {:induction false} AcksKinds(w: Window, acks: seq<Seq64>, opts: Options)
    requires Good(w, opts.maxRetx)
    ensures var r := ProcessAcks(w, acks, opts);
      r.Some? ==> KeepsKinds(w, r.value)
    decreases |acks|
  {
    if acks != [] {
      AckKinds(w, acks[0], opts);
      hide Good, KeepsKinds, ProcessAck;
      var v := ProcessAck(w, acks[0], opts);
      if v.Some? {
        AcksKinds(v.value, acks[1..], opts);
        var r := ProcessAcks(v.value, acks[1..], opts);
        if r.Some? {
          KindsTrans(w, v.value, r.value);
        }
      }
    }
  }

  lemma AckKinds(w: Window, ack: Seq64, opts: Options)
    requires Good(w, opts.maxRetx)
    ensures var r := ProcessAck(w, ack, opts);
      r.Some? ==> KeepsKinds(w, r.value)
  {
    if ack in w.frags {
      GoodIsSound(w, opts.maxRetx);
      LostStayOutstanding(w, ack, opts.seqNumLossThreshold);
      AckFragKeepsGood(w, ack, opts.maxRetx);
      AckFragKeys(w, ack);
      AckFragKinds(w, ack);
      var v, lost := AckFrag(w, ack), Lost(w.frags, Older(w, ack), opts.seqNumLossThreshold);
      hide Good, Inv, KeepsKinds, AckFrag, Lost, Older;
      LostKinds(v, lost, {}, opts);
      var r := ProcessLost(v, lost, {}, opts);
      if r.Some? {
        KindsTrans(w, v, r.value);
      }
    }
  }

  ghost predicate Kinded(w: Window, kinds: seq<bool>) {
    && w.nHanded == |kinds|
    && (forall p :: p in w.netPkts ==> p < |kinds| && w.netPkts[p].isInterest == kinds[p])
    && (forall p :: p in w.dropped ==> p < |kinds| && kinds[p])
  }

  lemma OutgoingKinds(w: Window, frags: seq<LpPacket>, pkt: LpPacket, isInterest: bool, kinds: seq<bool>)
    requires Kinded(w, kinds) && HandleOutgoing(w, frags, pkt, isInterest).Some?
    ensures Kinded(HandleOutgoing(w, frags, pkt, isInterest).value, kinds + [isInterest])
  {
    AddFragsFrame(NewNetPkt(w, pkt, isInterest), w.nHanded, 0, frags);
    AddFragsKind(NewNetPkt(w, pkt, isInterest), w.nHanded, 0, frags);
    hide AddFrags;
  }

  lemma KeptKinds(w: Window, r: Window, kinds: seq<bool>)
    requires Kinded(w, kinds) && KeepsKinds(w, r)
    ensures Kinded(r, kinds)
  {
  }

  lemma StepKinds(w: Window, e: Event, opts: Options, kinds: seq<bool>)
    requires Good(w, opts.maxRetx) && Enabled(w, e) && Kinded(w, kinds) && Step(w, e, opts).Some?
    ensures Kinded(Step(w, e, opts).value, if e.Outgoing? then kinds + [e.isInterest] else kinds)
  {
    hide Good, Inv, ArcInv, ListInv, HandleOutgoing, ProcessAcks, OnLost, KeepsKinds, Handable, Kinded;
    GoodIsSound(w, opts.maxRetx);
    match e {
      case Outgoing(frags, pkt, isInterest) => OutgoingKinds(w, frags, pkt, isInterest, kinds);
      case Incoming(acks, txSeq) =>
        AcksKinds(w, acks, opts);
        KeptKinds(w, ProcessAcks(w, acks, opts).value, kinds);
      case RtoExpired(txSeq) =>
        FragIsListed(w, txSeq);
        OnLostKinds(w, txSeq, opts);
        KeptKinds(w, OnLost(w, txSeq, opts).value, kinds);
      case Send(packet) => KindedWithAcks(w, Step(w, e, opts).value, kinds);
    }
    if e.Incoming? {
      KindedWithAcks(ProcessAcks(w, e.acks, opts).value, Step(w, e, opts).value, kinds);
    }
  }

  lemma KindedWithAcks(w: Window, r: Window, kinds: seq<bool>)
    requires Kinded(w, kinds) && r == w.(acks := r.acks)
    ensures Kinded(r, kinds)
  {
  }

  /** Over every run, a live packet is an Interest exactly if it was handed over as one, and only
      Interests are reported as dropped. */
  lemma {:induction false} OnlyInterestsAreReportedInEveryRun(es: seq<Event>, opts: Options)
    requires Run(es, opts).Some?
    ensures var w, kinds := Run(es, opts).value, Kinds(es);
      && w.nHanded == |kinds|
      && (forall p :: p in w.netPkts ==> p < |kinds| && w.netPkts[p].isInterest == kinds[p])
      && (forall p :: p in w.dropped ==> p < |kinds| && kinds[p])
    decreases |es|
  {
    hide Good, Step, Enabled;
    if es != [] {
      OnlyInterestsAreReportedInEveryRun(es[..|es| - 1], opts);
      StepKinds(Run(es[..|es| - 1], opts).value, es[|es| - 1], opts, Kinds(es[..|es| - 1]));
    }
  }
}
