/** Every operation of the send window keeps the window on its arc, keeps the fragment
    lists a partition of the outstanding fragments, and conserves network packets. */
module LpWindowInvariants {
  import opened Basics
  import opened LpPackets
  import opened TxRing
  import opened AckQueue
  import opened LpWindow

  // ---------------------------------------------------------------- sequences

  lemma RemoveSwapElems(list: seq<Seq64>, k: Seq64, x: Seq64)
    requires k in list && NoDup(list)
    ensures x in RemoveSwap(list, k) <==> x in list && x != k
  {
    var i, n := IndexOf(list, k), |list|;
    var r := RemoveSwap(list, k);
    if x in list && x != k {
      var j :| 0 <= j < n && list[j] == x;
      assert r[if j == n - 1 then i else j] == x;
    }
    if x in r {
      var j :| 0 <= j < n - 1 && r[j] == x;
      assert x == if j == i then list[n - 1] else list[j];
    }
  }

  lemma RemoveSwapNoDup(list: seq<Seq64>, k: Seq64)
    requires k in list && NoDup(list)
    ensures NoDup(RemoveSwap(list, k))
  {
    var i, n := IndexOf(list, k), |list|;
    var r := RemoveSwap(list, k);
    forall a, b | 0 <= a < b < n - 1
      ensures r[a] != r[b]
    {
      assert r[a] == if a == i then list[n - 1] else list[a];
      assert r[b] == if b == i then list[n - 1] else list[b];
    }
  }

  lemma ReplaceElems(list: seq<Seq64>, k: Seq64, y: Seq64, x: Seq64)
    requires k in list && NoDup(list) && y !in list
    ensures x in list[IndexOf(list, k) := y] <==> (x in list && x != k) || x == y
  {
    var i := IndexOf(list, k);
    var r := list[i := y];
    assert r[i] == y;
    if x in list && x != k {
      var j :| 0 <= j < |list| && list[j] == x;
      assert r[j] == x;
    }
  }

  lemma ReplaceNoDup(list: seq<Seq64>, k: Seq64, y: Seq64)
    requires k in list && NoDup(list) && y !in list
    ensures NoDup(list[IndexOf(list, k) := y])
  {
  }

  lemma {:induction false} OthersNoDup(list: seq<Seq64>, k: Seq64)
    requires NoDup(list)
    ensures NoDup(Others(list, k))
  {
    if list != [] {
      OthersNoDup(list[1..], k);
      var rest := Others(list[1..], k);
      assert list[0] !in list[1..];
      var r := Others(list, k);
      assert list[0] != k ==> r == [list[0]] + rest;
    }
  }

  lemma RemovedNoDup(list: seq<Seq64>, k: Seq64)
    requires NoDup(list)
    ensures NoDup(Others(list, k) + [k])
  {
    OthersNoDup(list, k);
    var o := Others(list, k);
    forall i, j | 0 <= i < j < |o| + 1
      ensures (o + [k])[i] != (o + [k])[j]
    {
      assert o[i] in o;
    }
  }

  // ---------------------------------------------------------------- partition

  lemma PartitionAdd(frags: map<Seq64, UnackedFrag>, netPkts: map<nat, NetPkt>, p: nat, k: Seq64,
                     f: UnackedFrag, np: NetPkt)
    requires Partition(frags, netPkts) && p in netPkts && k !in frags
    requires f.netPkt == p && np.unackedFrags == netPkts[p].unackedFrags + [k]
    ensures Partition(frags[k := f], netPkts[p := np])
  {
    var frags', netPkts' := frags[k := f], netPkts[p := np];
    assert Listed(frags, netPkts, p, k);
    forall q, x
      ensures Listed(frags', netPkts', q, x)
    {
      assert Listed(frags, netPkts, q, x);
    }
  }

  lemma PartitionNewPkt(frags: map<Seq64, UnackedFrag>, netPkts: map<nat, NetPkt>, p: nat, np: NetPkt)
    requires Partition(frags, netPkts) && p !in netPkts && np.unackedFrags == []
    ensures Partition(frags, netPkts[p := np])
  {
    var netPkts' := netPkts[p := np];
    forall q, x
      ensures Listed(frags, netPkts', q, x)
    {
      assert Listed(frags, netPkts, q, x);
    }
  }

  lemma PartitionSameOwners(frags: map<Seq64, UnackedFrag>, netPkts: map<nat, NetPkt>, frags': map<Seq64, UnackedFrag>)
    requires Partition(frags, netPkts)
    requires frags'.Keys == frags.Keys && forall k :: k in frags ==> frags'[k].netPkt == frags[k].netPkt
    ensures Partition(frags', netPkts)
  {
    forall q, x
      ensures Listed(frags', netPkts, q, x)
    {
      assert Listed(frags, netPkts, q, x);
    }
  }

  /** Taking a fragment out of its list, which stays non-empty. */
  lemma PartitionRemove(frags: map<Seq64, UnackedFrag>, netPkts: map<nat, NetPkt>, k: Seq64, np: NetPkt)
    requires Partition(frags, netPkts) && k in frags
    requires k in netPkts[frags[k].netPkt].unackedFrags
    requires np.unackedFrags == RemoveSwap(netPkts[frags[k].netPkt].unackedFrags, k)
    ensures Partition(frags - {k}, netPkts[frags[k].netPkt := np])
  {
    var p := frags[k].netPkt;
    var list := netPkts[p].unackedFrags;
    RemoveSwapNoDup(list, k);
    var frags', netPkts' := frags - {k}, netPkts[p := np];
    forall q, x
      ensures Listed(frags', netPkts', q, x)
    {
      assert Listed(frags, netPkts, q, x);
      if q == p {
        RemoveSwapElems(list, k, x);
      }
    }
  }

  /** Dropping a network packet together with all its fragments. */
  lemma PartitionDrop(frags: map<Seq64, UnackedFrag>, netPkts: map<nat, NetPkt>, p: nat, gone: set<Seq64>)
    requires Partition(frags, netPkts) && p in netPkts
    requires forall x :: x in gone <==> x in frags && frags[x].netPkt == p
    ensures Partition(frags - gone, netPkts - {p})
  {
    var frags', netPkts' := frags - gone, netPkts - {p};
    forall q, x
      ensures Listed(frags', netPkts', q, x)
    {
      assert Listed(frags, netPkts, q, x);
    }
  }

  /** Moving a fragment to another key. */
  lemma PartitionMove(frags: map<Seq64, UnackedFrag>, netPkts: map<nat, NetPkt>, k: Seq64, tx: Seq64,
                      f: UnackedFrag, np: NetPkt)
    requires Partition(frags, netPkts) && k in frags && tx !in frags
    requires k in netPkts[frags[k].netPkt].unackedFrags
    requires f.netPkt == frags[k].netPkt
    requires np.unackedFrags ==
             netPkts[f.netPkt].unackedFrags[IndexOf(netPkts[f.netPkt].unackedFrags, k) := tx]
    ensures Partition(frags[tx := f] - {k}, netPkts[f.netPkt := np])
  {
    var p := f.netPkt;
    var list := netPkts[p].unackedFrags;
    assert Listed(frags, netPkts, p, tx);
    ReplaceNoDup(list, k, tx);
    var frags', netPkts' := frags[tx := f] - {k}, netPkts[p := np];
    forall q, x
      ensures Listed(frags', netPkts', q, x)
    {
      assert Listed(frags, netPkts, q, x);
      if q == p {
        ReplaceElems(list, k, tx, x);
      }
    }
  }

  /** An outstanding fragment is in the list of its network packet. */
  lemma FragIsListed(w: Window, k: Seq64)
    requires ListInv(w) && k in w.frags
    ensures w.frags[k].netPkt in w.netPkts && k in w.netPkts[w.frags[k].netPkt].unackedFrags
  {
    assert Listed(w.frags, w.netPkts, w.frags[k].netPkt, k);
  }

  // ---------------------------------------------------------------- handleOutgoing

  /** The TxSequence that handleOutgoing or a retransmission takes is not in use. */
  lemma NextTxIsFresh(w: Window)
    requires ArcInv(w) && !RangeExceeded(w)
    ensures Plus(w.lastTx, 1) !in w.frags
  {
    FreshUnlessFirst(w.frags.Keys, w.first, w.lastTx);
  }

  lemma FreshAndPresent(w: Window, k: Seq64)
    requires ArcInv(w) && k in w.frags
    ensures w.first.Some?
    ensures !RangeExceeded(w) ==> Plus(w.lastTx, 1) != k
  {
    FreshUnlessFirst(w.frags.Keys, w.first, w.lastTx);
  }

  lemma AddFragArc(w: Window, p: nat, slot: nat, frag: LpPacket)
    requires ArcInv(w) && p in w.netPkts && !RangeExceeded(w)
    ensures ArcInv(AddFrag(w, p, slot, frag).value)
  {
    var tx := Plus(w.lastTx, 1);
    AssignKeepsArc(w.frags.Keys, w.first, w.lastTx);
    assert AddFrag(w, p, slot, frag).value.frags.Keys == w.frags.Keys + {tx};
    assert w.frags == map[] <==> w.frags.Keys == {};
  }

  lemma AddFragList(w: Window, p: nat, slot: nat, frag: LpPacket)
    requires ArcInv(w) && ListInv(w) && p in w.netPkts && !RangeExceeded(w)
    ensures ListInv(AddFrag(w, p, slot, frag).value)
  {
    NextTxIsFresh(w);
    var tx := Plus(w.lastTx, 1);
    var np := w.netPkts[p];
    PartitionAdd(w.frags, w.netPkts, p, tx, UnackedFrag(frag.(txSequence := Some(tx)), 0, 0, p, slot),
                 np.(unackedFrags := np.unackedFrags + [tx]));
  }

  lemma {:induction false} AddFragsKeep(w: Window, p: nat, slot: nat, frags: seq<LpPacket>)
    requires ArcInv(w) && ListInv(w) && p in w.netPkts
    ensures var r := AddFrags(w, p, slot, frags);
            r.Some? ==> ArcInv(r.value) && ListInv(r.value)
    decreases |frags|
  {
    if frags != [] && !RangeExceeded(w) {
      AddFragArc(w, p, slot, frags[0]);
      AddFragList(w, p, slot, frags[0]);
      AddFragsKeep(AddFrag(w, p, slot, frags[0]).value, p, slot + 1, frags[1..]);
    }
  }

  /** handleOutgoing adds fragments to one network packet and changes no counter. */
  lemma {:induction false} AddFragsFrame(w: Window, p: nat, slot: nat, frags: seq<LpPacket>)
    requires p in w.netPkts
    ensures var r := AddFrags(w, p, slot, frags);
            r.Some? ==>
              && r.value.netPkts == w.netPkts[p := r.value.netPkts[p]]
              && |r.value.netPkts[p].unackedFrags| == |w.netPkts[p].unackedFrags| + |frags|
              && r.value.nHanded == w.nHanded
              && r.value.nAcknowledged == w.nAcknowledged
              && r.value.nRetransmitted == w.nRetransmitted
              && r.value.nRetxExhausted == w.nRetxExhausted
              && r.value.dropped == w.dropped
              && r.value.acks == w.acks
    decreases |frags|
  {
    if frags != [] && !RangeExceeded(w) {
      AddFragsFrame(AddFrag(w, p, slot, frags[0]).value, p, slot + 1, frags[1..]);
    }
  }

  ghost predicate Inv(w: Window) {
    ArcInv(w) && ListInv(w) && LiveInv(w) && Conserved(w)
  }

  lemma HandleOutgoingCounts(w: Window, frags: seq<LpPacket>, pkt: LpPacket, isInterest: bool)
    requires LiveInv(w) && Conserved(w) && frags != []
    ensures var r := HandleOutgoing(w, frags, pkt, isInterest);
            r.Some? ==> LiveInv(r.value) && Conserved(r.value) && r.value.nHanded == w.nHanded + 1
  {
    AddFragsFrame(NewNetPkt(w, pkt, isInterest), w.nHanded, 0, frags);
    var r := HandleOutgoing(w, frags, pkt, isInterest);
    if r.Some? {
      assert w.nHanded !in w.netPkts;
      assert r.value.netPkts.Keys == w.netPkts.Keys + {w.nHanded};
      assert |r.value.netPkts.Keys| == |w.netPkts.Keys| + 1;
    }
  }

  lemma HandleOutgoingKeepsInv(w: Window, frags: seq<LpPacket>, pkt: LpPacket, isInterest: bool)
    requires Inv(w) && frags != []
    ensures var r := HandleOutgoing(w, frags, pkt, isInterest);
            r.Some? ==> Inv(r.value)
  {
    assert w.nHanded !in w.netPkts;
    PartitionNewPkt(w.frags, w.netPkts, w.nHanded, NetPkt([], pkt, isInterest, false));
    AddFragsKeep(NewNetPkt(w, pkt, isInterest), w.nHanded, 0, frags);
    HandleOutgoingCounts(w, frags, pkt, isInterest);
  }

  // ---------------------------------------------------------------- acknowledgement

  lemma DeleteFragArc(w: Window, k: Seq64)
    requires ArcInv(w) && k in w.frags
    ensures ArcInv(DeleteFrag(w, k))
  {
    EraseKeepsArc(w.frags.Keys, w.first, w.lastTx, k);
    assert (w.frags - {k}).Keys == w.frags.Keys - {k};
  }

  lemma AcknowledgeArc(w: Window, k: Seq64)
    requires ArcInv(w) && k in w.frags && w.frags[k].netPkt in w.netPkts
    requires k in w.netPkts[w.frags[k].netPkt].unackedFrags
    ensures ArcInv(Acknowledge(w, k))
  {
    DeleteFragArc(w, k);
    var r, d := Acknowledge(w, k), DeleteFrag(w, k);
    assert r.frags == d.frags && r.first == d.first && r.lastTx == d.lastTx;
  }

  lemma AcknowledgeList(w: Window, k: Seq64)
    requires ListInv(w) && k in w.frags && w.frags[k].netPkt in w.netPkts
    requires k in w.netPkts[w.frags[k].netPkt].unackedFrags
    ensures ListInv(Acknowledge(w, k))
  {
    var p := w.frags[k].netPkt;
    var np := w.netPkts[p];
    var left := RemoveSwap(np.unackedFrags, k);
    if left == [] {
      forall x
        ensures x in {k} <==> x in w.frags && w.frags[x].netPkt == p
      {
        assert Listed(w.frags, w.netPkts, p, x);
        RemoveSwapElems(np.unackedFrags, k, x);
      }
      PartitionDrop(w.frags, w.netPkts, p, {k});
    } else {
      PartitionRemove(w.frags, w.netPkts, k, np.(unackedFrags := left));
    }
  }

  lemma AcknowledgeCounts(w: Window, k: Seq64)
    requires LiveInv(w) && Conserved(w) && k in w.frags && w.frags[k].netPkt in w.netPkts
    requires k in w.netPkts[w.frags[k].netPkt].unackedFrags
    ensures LiveInv(Acknowledge(w, k)) && Conserved(Acknowledge(w, k))
  {
    var p := w.frags[k].netPkt;
    var left := RemoveSwap(w.netPkts[p].unackedFrags, k);
    var r := Acknowledge(w, k);
    if left == [] {
      assert r.netPkts.Keys == w.netPkts.Keys - {p};
      assert |r.netPkts.Keys| == |w.netPkts.Keys| - 1;
    } else {
      assert r.netPkts.Keys == w.netPkts.Keys;
    }
  }

  lemma AcknowledgeKeepsInv(w: Window, k: Seq64)
    requires Inv(w) && k in w.frags && w.frags[k].netPkt in w.netPkts
    requires k in w.netPkts[w.frags[k].netPkt].unackedFrags
    ensures Inv(Acknowledge(w, k))
  {
    AcknowledgeArc(w, k);
    AcknowledgeList(w, k);
    AcknowledgeCounts(w, k);
  }

  // ---------------------------------------------------------------- loss: give up

  lemma {:induction false} DeleteFragsArc(w: Window, ks: seq<Seq64>)
    requires ArcInv(w) && NoDup(ks) && forall x :: x in ks ==> x in w.frags
    ensures ArcInv(DeleteFrags(w, ks))
    decreases |ks|
  {
    if ks != [] {
      DeleteFragArc(w, ks[0]);
      assert forall x :: x in ks[1..] ==> x in ks && x != ks[0];
      DeleteFragsArc(DeleteFrag(w, ks[0]), ks[1..]);
    }
  }

  lemma {:induction false} DeleteFragsFrame(w: Window, ks: seq<Seq64>)
    ensures DeleteFrags(w, ks) == w.(frags := w.frags - Elems(ks), first := DeleteFrags(w, ks).first)
    decreases |ks|
  {
    if ks == [] {
      assert w.frags - Elems(ks) == w.frags;
    } else {
      var w1 := DeleteFrag(w, ks[0]);
      DeleteFragsFrame(w1, ks[1..]);
      assert Elems(ks) == {ks[0]} + Elems(ks[1..]);
      assert w1.frags - Elems(ks[1..]) == w.frags - Elems(ks);
    }
  }

  /** Giving up on a fragment removes exactly the fragments of its network packet. */
  lemma ExhaustRemoves(w: Window, k: Seq64)
    requires ListInv(w) && k in w.frags && w.frags[k].netPkt in w.netPkts
    ensures var p := w.frags[k].netPkt;
            var ks := Others(w.netPkts[p].unackedFrags, k) + [k];
            && NoDup(ks)
            && (forall x :: x in ks <==> x in w.frags && w.frags[x].netPkt == p)
            && Exhaust(w, k).frags == w.frags - Elems(ks)
  {
    var p := w.frags[k].netPkt;
    var list := w.netPkts[p].unackedFrags;
    var ks := Others(list, k) + [k];
    RemovedNoDup(list, k);
    forall x
      ensures x in ks <==> x in w.frags && w.frags[x].netPkt == p
    {
      assert Listed(w.frags, w.netPkts, p, x);
      assert x in ks <==> x in Others(list, k) || x == k;
    }
    DeleteFragsFrame(w, ks);
  }

  lemma ExhaustArc(w: Window, k: Seq64)
    requires ArcInv(w) && ListInv(w) && k in w.frags && w.frags[k].netPkt in w.netPkts
    ensures ArcInv(Exhaust(w, k))
  {
    ExhaustRemoves(w, k);
    DeleteFragsArc(w, Others(w.netPkts[w.frags[k].netPkt].unackedFrags, k) + [k]);
    DeleteFragsFrame(w, Others(w.netPkts[w.frags[k].netPkt].unackedFrags, k) + [k]);
  }

  lemma ExhaustList(w: Window, k: Seq64)
    requires ListInv(w) && k in w.frags && w.frags[k].netPkt in w.netPkts
    ensures ListInv(Exhaust(w, k))
  {
    ExhaustRemoves(w, k);
    var p := w.frags[k].netPkt;
    var ks := Others(w.netPkts[p].unackedFrags, k) + [k];
    PartitionDrop(w.frags, w.netPkts, p, Elems(ks));
  }

  lemma ExhaustCounts(w: Window, k: Seq64)
    requires LiveInv(w) && Conserved(w) && k in w.frags && w.frags[k].netPkt in w.netPkts
    ensures LiveInv(Exhaust(w, k)) && Conserved(Exhaust(w, k))
  {
    var p := w.frags[k].netPkt;
    DeleteFragsFrame(w, Others(w.netPkts[p].unackedFrags, k) + [k]);
    var r := Exhaust(w, k);
    assert r.netPkts.Keys == w.netPkts.Keys - {p};
    assert |r.netPkts.Keys| == |w.netPkts.Keys| - 1;
  }

  // ---------------------------------------------------------------- loss: send again

  lemma RetransmitArc(w: Window, k: Seq64)
    requires ArcInv(w) && k in w.frags && w.frags[k].netPkt in w.netPkts && !RangeExceeded(w)
    requires k in w.netPkts[w.frags[k].netPkt].unackedFrags
    ensures ArcInv(Retransmit(w, k))
  {
    NextTxIsFresh(w);
    var tx := Plus(w.lastTx, 1);
    AssignKeepsArc(w.frags.Keys, w.first, w.lastTx);
    var r := Retransmit(w, k);
    EraseKeepsArc(w.frags.Keys + {tx}, w.first, tx, k);
    assert r.frags.Keys == w.frags.Keys + {tx} - {k};
    assert w.frags[tx := w.frags[k]].Keys == w.frags.Keys + {tx};
  }

  lemma RetransmitList(w: Window, k: Seq64)
    requires ArcInv(w) && ListInv(w) && !RangeExceeded(w)
    requires k in w.frags && w.frags[k].netPkt in w.netPkts
    requires k in w.netPkts[w.frags[k].netPkt].unackedFrags
    ensures ListInv(Retransmit(w, k))
  {
    NextTxIsFresh(w);
    var tx := Plus(w.lastTx, 1);
    var f := w.frags[k];
    var np := w.netPkts[f.netPkt];
    PartitionMove(w.frags, w.netPkts, k, tx,
                  UnackedFrag(f.pkt.(txSequence := Some(tx)), f.retxCount + 1, 0, f.netPkt, f.slot),
                  np.(unackedFrags := np.unackedFrags[IndexOf(np.unackedFrags, k) := tx], didRetx := true));
  }

  lemma RetransmitCounts(w: Window, k: Seq64)
    requires LiveInv(w) && Conserved(w)
    requires k in w.frags && w.frags[k].netPkt in w.netPkts
    requires k in w.netPkts[w.frags[k].netPkt].unackedFrags
    ensures LiveInv(Retransmit(w, k)) && Conserved(Retransmit(w, k))
  {
    assert Retransmit(w, k).netPkts.Keys == w.netPkts.Keys;
  }

  lemma OnLostKeepsInv(w: Window, k: Seq64, opts: Options)
    requires Inv(w) && k in w.frags && w.frags[k].netPkt in w.netPkts
    requires k in w.netPkts[w.frags[k].netPkt].unackedFrags
    ensures OnLost(w, k, opts).Some? ==> Inv(OnLost(w, k, opts).value)
  {
    if w.frags[k].retxCount >= opts.maxRetx {
      ExhaustArc(w, k);
      ExhaustList(w, k);
      ExhaustCounts(w, k);
    } else if !RangeExceeded(w) {
      RetransmitArc(w, k);
      RetransmitList(w, k);
      RetransmitCounts(w, k);
    }
  }
}
