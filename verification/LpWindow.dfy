/** The send window of LpReliability as a value, and what each operation does to it. */
module LpWindow {
  import opened Basics
  import opened LpPackets
  import opened TxRing
  import opened AckQueue

  /** `link` is the environment of a run: the MTU and the congestion each sent packet meets. */
  datatype Options = Options(maxRetx: nat, seqNumLossThreshold: nat, link: Link)

  /** LpReliability::UnackedFrag.  `netPkt` and `slot` say which fragment of which network
      packet this is; they never change when the fragment moves to a new TxSequence. */
  datatype UnackedFrag = UnackedFrag(
    pkt: LpPacket,
    retxCount: nat,
    nGreaterSeqAcks: nat,
    netPkt: nat,
    slot: nat)

  /** LpReliability::NetPkt. */
  datatype NetPkt = NetPkt(
    unackedFrags: seq<Seq64>,
    pkt: LpPacket,
    isInterest: bool,
    didRetx: bool)

  /** `netPkts` holds the network packets that some unacknowledged fragment still refers
      to, numbered in the order they were handed to handleOutgoing.  `sends` counts the
      transmissions of each fragment and `dropped` lists the onDroppedInterest signals. */
  datatype Window = Window(
    frags: map<Seq64, UnackedFrag>,
    first: Option<Seq64>,
    lastTx: Seq64,
    netPkts: map<nat, NetPkt>,
    nHanded: nat,
    nAcknowledged: nat,
    nRetransmitted: nat,
    nRetxExhausted: nat,
    sends: multiset<(nat, nat)>,
    dropped: seq<nat>,
    acks: AckState)

  /** m_lastTxSeqNo starts at -1, so that the first TxSequence is 0. */
  function Initial(link: Link): (w: Window) {
    Window(map[], None, TWO64 - 1, map[], 0, 0, 0, 0, multiset{}, [], AckState(link, [], [], []))
  }

  // ---------------------------------------------------------------- operations

  /** assignTxSequence throws when the number it would hand out is the first outstanding one. */
  predicate RangeExceeded(w: Window) {
    w.frags != map[] && w.first == Some(Plus(w.lastTx, 1))
  }

  /** One iteration of handleOutgoing. */
  function AddFrag(w: Window, p: nat, slot: nat, frag: LpPacket): (r: Option<Window>)
    requires p in w.netPkts
  {
    if RangeExceeded(w) then None
    else
      var tx := Plus(w.lastTx, 1);
      var np := w.netPkts[p];
      Some(w.(
           frags := w.frags[tx := UnackedFrag(frag.(txSequence := Some(tx)), 0, 0, p, slot)],
           first := if w.frags == map[] then Some(tx) else w.first,
           lastTx := tx,
           netPkts := w.netPkts[p := np.(unackedFrags := np.unackedFrags + [tx])],
           sends := w.sends + multiset{(p, slot)}))
  }

  function AddFrags(w: Window, p: nat, slot: nat, frags: seq<LpPacket>): (r: Option<Window>)
    requires p in w.netPkts
    ensures r.Some? ==> p in r.value.netPkts
    decreases |frags|
  {
    if frags == [] then Some(w)
    else
      match AddFrag(w, p, slot, frags[0])
      case None => None
      case Some(w') => AddFrags(w', p, slot + 1, frags[1..])
  }

  function NewNetPkt(w: Window, pkt: LpPacket, isInterest: bool): (r: Window) {
    w.(netPkts := w.netPkts[w.nHanded := NetPkt([], pkt, isInterest, false)],
       nHanded := w.nHanded + 1)
  }

  /** handleOutgoing; None when assignTxSequence throws. */
  function HandleOutgoing(w: Window, frags: seq<LpPacket>, pkt: LpPacket, isInterest: bool): (r: Option<Window>) {
    AddFrags(NewNetPkt(w, pkt, isInterest), w.nHanded, 0, frags)
  }

  /** The fragments that findLostLpPackets visits for an ack of `ack`. */
  function Older(w: Window, ack: Seq64): (r: seq<Seq64>)
    requires ack in w.frags && w.first.Some? && w.first.value in w.frags
  {
    Walk(w.frags.Keys, w.first.value, ack)
  }

  function BumpFrag(f: UnackedFrag): (r: UnackedFrag) {
    f.(nGreaterSeqAcks := f.nGreaterSeqAcks + 1)
  }

  function Bump(frags: map<Seq64, UnackedFrag>, older: seq<Seq64>): (r: map<Seq64, UnackedFrag>)
    ensures r.Keys == frags.Keys
  {
    map k | k in frags :: if k in older then BumpFrag(frags[k]) else frags[k]
  }

  function Lost(frags: map<Seq64, UnackedFrag>, older: seq<Seq64>, threshold: nat): (r: seq<Seq64>)
    requires forall k :: k in older ==> k in frags
  {
    if older == [] then []
    else
      (if frags[older[0]].nGreaterSeqAcks + 1 >= threshold then [older[0]] else [])
      + Lost(frags, older[1..], threshold)
  }

  function IndexOf(list: seq<Seq64>, k: Seq64): (i: nat)
    requires k in list
    ensures i < |list| && list[i] == k
  {
    if list[0] == k then 0 else 1 + IndexOf(list[1..], k)
  }

  /** Overwrite with the last element, then drop the last element. */
  function RemoveSwap(list: seq<Seq64>, k: Seq64): (r: seq<Seq64>)
    requires k in list
  {
    list[IndexOf(list, k) := list[|list| - 1]][..|list| - 1]
  }

  /** deleteUnackedFrag. */
  function DeleteFrag(w: Window, k: Seq64): (r: Window) {
    w.(frags := w.frags - {k}, first := FirstAfterErase(w.frags.Keys, w.first, k))
  }

  /** onLpPacketAcknowledged. */
  function Acknowledge(w: Window, k: Seq64): (r: Window)
    requires k in w.frags && w.frags[k].netPkt in w.netPkts
    requires k in w.netPkts[w.frags[k].netPkt].unackedFrags
  {
    var p := w.frags[k].netPkt;
    var np := w.netPkts[p];
    var left := RemoveSwap(np.unackedFrags, k);
    var w' :=
      if left == [] then
        var gone := w.(netPkts := w.netPkts - {p});
        if np.didRetx then gone.(nRetransmitted := gone.nRetransmitted + 1)
        else gone.(nAcknowledged := gone.nAcknowledged + 1)
      else
        w.(netPkts := w.netPkts[p := np.(unackedFrags := left)]);
    DeleteFrag(w', k)
  }

  function Others(list: seq<Seq64>, k: Seq64): (r: seq<Seq64>)
    ensures forall x :: x in r <==> x in list && x != k
  {
    if list == [] then [] else (if list[0] != k then [list[0]] else []) + Others(list[1..], k)
  }

  function DeleteFrags(w: Window, ks: seq<Seq64>): (r: Window)
    decreases |ks|
  {
    if ks == [] then w else DeleteFrags(DeleteFrag(w, ks[0]), ks[1..])
  }

  /** TxSequences that onLpPacketLost reports as removed. */
  function RemovedBy(w: Window, k: Seq64, opts: Options): (r: seq<Seq64>)
    requires k in w.frags && w.frags[k].netPkt in w.netPkts
  {
    if w.frags[k].retxCount >= opts.maxRetx
    then Others(w.netPkts[w.frags[k].netPkt].unackedFrags, k) + [k]
    else [k]
  }

  /** onLpPacketLost when the fragment has used up its retransmissions. */
  function Exhaust(w: Window, k: Seq64): (r: Window)
    requires k in w.frags && w.frags[k].netPkt in w.netPkts
  {
    var p := w.frags[k].netPkt;
    var np := w.netPkts[p];
    DeleteFrags(w, Others(np.unackedFrags, k) + [k]).(
      netPkts := w.netPkts - {p},
      nRetxExhausted := w.nRetxExhausted + 1,
      dropped := if np.isInterest then w.dropped + [p] else w.dropped)
  }

  /** onLpPacketLost when the fragment is sent again. */
  function Retransmit(w: Window, k: Seq64): (r: Window)
    requires k in w.frags && w.frags[k].netPkt in w.netPkts
    requires k in w.netPkts[w.frags[k].netPkt].unackedFrags
  {
    var f := w.frags[k];
    var tx := Plus(w.lastTx, 1);
    var f' := UnackedFrag(f.pkt.(txSequence := Some(tx)), f.retxCount + 1, 0, f.netPkt, f.slot);
    var np := w.netPkts[f.netPkt];
    var np' := np.(unackedFrags := np.unackedFrags[IndexOf(np.unackedFrags, k) := tx], didRetx := true);
    DeleteFrag(w.(frags := w.frags[tx := f'], lastTx := tx), k).(
      netPkts := w.netPkts[f.netPkt := np'],
      sends := w.sends + multiset{(f.netPkt, f.slot)},
      acks := Transmit(w.acks, f'.pkt))
  }

  /** onLpPacketLost; None when assignTxSequence throws. */
  function OnLost(w: Window, k: Seq64, opts: Options): (r: Option<Window>)
    requires k in w.frags && w.frags[k].netPkt in w.netPkts
    requires k in w.netPkts[w.frags[k].netPkt].unackedFrags
  {
    if w.frags[k].retxCount >= opts.maxRetx then Some(Exhaust(w, k))
    else if RangeExceeded(w) then None
    else Some(Retransmit(w, k))
  }

  // ---------------------------------------------------------------- invariant

  ghost predicate ArcInv(w: Window) {
    OnArc(w.frags.Keys, w.first, w.lastTx)
  }

  /** `k` is in the list of network packet `p` exactly if it is an outstanding fragment of `p`. */
  ghost predicate Listed(frags: map<Seq64, UnackedFrag>, netPkts: map<nat, NetPkt>, p: nat, k: Seq64) {
    p in netPkts ==> (k in netPkts[p].unackedFrags <==> k in frags && frags[k].netPkt == p)
  }

  /** The lists of the live network packets partition the unacknowledged fragments: every
      fragment is in the list of exactly one of them, and there only once. */
  ghost predicate Partition(frags: map<Seq64, UnackedFrag>, netPkts: map<nat, NetPkt>) {
    && (forall k :: k in frags ==> frags[k].netPkt in netPkts)
    && (forall p, k :: Listed(frags, netPkts, p, k))
    && (forall p :: p in netPkts ==> NoDup(netPkts[p].unackedFrags))
  }

  ghost predicate ListInv(w: Window) {
    Partition(w.frags, w.netPkts)
  }

  ghost predicate LiveInv(w: Window) {
    forall p :: p in w.netPkts ==> p < w.nHanded && w.netPkts[p].unackedFrags != []
  }

  ghost predicate Conserved(w: Window) {
    w.nHanded == w.nAcknowledged + w.nRetransmitted + w.nRetxExhausted + |w.netPkts|
  }
}
