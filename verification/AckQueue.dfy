/** The queue of acknowledgements waiting to leave, and their attachment to outgoing
    LpPackets (LpReliability::piggyback, startIdleAckTimer; GenericLinkService::sendLpPacket). */
module AckQueue {
  import opened Basics
  import opened LpPackets

  /** Octets that piggyback considers available for Ack fields. */
  function AckRoom(pktSize: nat, mtu: int): (room: int) {
    (if mtu == MTU_UNLIMITED then MAX_NDN_PACKET_SIZE else mtu)
    - (VarSize(MAX_NDN_PACKET_SIZE) - VarSize(pktSize))
    - pktSize
  }

  /** How many of `n` queued acks leave in `room` octets. */
  function AckCount(room: int, n: nat): (k: nat)
    ensures k <= n
    ensures ACK_SIZE * k <= room || k == 0
    ensures k < n ==> room < ACK_SIZE * (k + 1)
  {
    if n == 0 || room < ACK_SIZE then 0
    else if room / ACK_SIZE < n then room / ACK_SIZE
    else n
  }

  function Attached(pkt: LpPacket, queue: seq<Seq64>, mtu: int): (k: nat)
    ensures k <= |queue|
  {
    AckCount(AckRoom(WireSize(pkt), mtu), |queue|)
  }

  function WithAcks(pkt: LpPacket, queue: seq<Seq64>, mtu: int): (r: LpPacket) {
    pkt.(acks := pkt.acks + queue[..Attached(pkt, queue, mtu)])
  }

  /** LpReliability::piggyback. */
  method Piggyback(pkt: LpPacket, queue: seq<Seq64>, mtu: int) returns (r: LpPacket, left: seq<Seq64>)
    requires !IsBare(pkt)
    ensures r == WithAcks(pkt, queue, mtu)
    ensures left == queue[Attached(pkt, queue, mtu)..]
  {
    r, left := pkt, queue;
    var room := AckRoom(WireSize(pkt), mtu);
    ghost var i := 0;
    while left != []
      invariant i <= |queue| && left == queue[i..]
      invariant r == pkt.(acks := pkt.acks + queue[..i])
      invariant room == AckRoom(WireSize(pkt), mtu) - ACK_SIZE * i
      invariant i > 0 ==> room >= 0
      decreases |left|
    {
      var ackTxSeq := left[0];
      if ACK_SIZE > room {
        break;
      }
      assert queue[..i] + [ackTxSeq] == queue[..i + 1];
      r := r.(acks := r.acks + [ackTxSeq]);
      left := left[1..];
      room := room - ACK_SIZE;
      i := i + 1;
    }
  }

  // ---------------------------------------------------------------- sendLpPacket

  /** What the link is like when the `i`-th LpPacket is passed to sendLpPacket: its effective
      MTU, and whether checkCongestionLevel marks the packet. */
  datatype Link = Link(mtu: nat -> int, congested: nat -> bool)

  /** One call of sendLpPacket: the packet it was given, the acks attached to it, whether it
      was marked, and whether it was passed to the transport or dropped as over the MTU. */
  datatype Attempt = Attempt(packet: LpPacket, acks: seq<Seq64>, marked: bool, passed: bool)

  /** The packet as it is encoded. */
  function Final(t: Attempt): (p: LpPacket) {
    Marked(t.packet.(acks := t.packet.acks + t.acks), t.marked)
  }

  /** What one acknowledgement queue has seen: `queued` are the acks ever put into it,
      `attempts` the calls of sendLpPacket. */
  datatype AckState = AckState(link: Link, queue: seq<Seq64>, queued: seq<Seq64>, attempts: seq<Attempt>)

  function Push(a: AckState, txSeq: Seq64): (r: AckState) {
    a.(queue := a.queue + [txSeq], queued := a.queued + [txSeq])
  }

  /** sendLpPacket after acks have been attached: mark, then the MTU check. */
  function Try(link: Link, i: nat, pkt: LpPacket, acks: seq<Seq64>): (t: Attempt) {
    var marked := link.congested(i);
    Attempt(pkt, acks, marked, !OverMtu(Marked(pkt.(acks := pkt.acks + acks), marked), link.mtu(i)))
  }

  /** sendLpPacket without reliability. */
  function Pass(a: AckState, pkt: LpPacket): (r: AckState) {
    a.(attempts := a.attempts + [Try(a.link, |a.attempts|, pkt, [])])
  }

  /** sendLpPacket with reliability enabled. */
  function Transmit(a: AckState, pkt: LpPacket): (r: AckState) {
    var i := |a.attempts|;
    var k := Attached(pkt, a.queue, a.link.mtu(i));
    a.(queue := a.queue[k..], attempts := a.attempts + [Try(a.link, i, pkt, a.queue[..k])])
  }

  function AcksOn(ts: seq<Attempt>): (r: seq<Seq64>) {
    if ts == [] then [] else AcksOn(ts[..|ts| - 1]) + ts[|ts| - 1].acks
  }

  /** The packets passed to the transport, and those dropped. */
  function SentOf(ts: seq<Attempt>): (r: seq<Attempt>) {
    if ts == [] then [] else SentOf(ts[..|ts| - 1]) + if ts[|ts| - 1].passed then [ts[|ts| - 1]] else []
  }

  function DroppedOf(ts: seq<Attempt>): (r: seq<Attempt>) {
    if ts == [] then [] else DroppedOf(ts[..|ts| - 1]) + if ts[|ts| - 1].passed then [] else [ts[|ts| - 1]]
  }

  /** The attempt follows piggyback and the MTU check on a link with this MTU and mark. */
  ghost predicate Regular(t: Attempt, mtu: int, marked: bool) {
    && t.packet.acks == [] && t.marked == marked
    && t.passed == !OverMtu(Final(t), mtu)
    && (t.acks != [] ==> !IsBare(t.packet) && ACK_SIZE * |t.acks| <= AckRoom(WireSize(t.packet), mtu))
  }

  /** Every ack ever queued is on exactly one packet or still waiting, in queueing order. */
  ghost predicate Fifo(a: AckState) {
    && AcksOn(a.attempts) + a.queue == a.queued
    && forall i :: 0 <= i < |a.attempts| ==> Regular(a.attempts[i], a.link.mtu(i), a.link.congested(i))
  }

  lemma PushKeepsFifo(a: AckState, txSeq: Seq64)
    requires Fifo(a)
    ensures Fifo(Push(a, txSeq))
  {
    hide Regular;
    assert AcksOn(a.attempts) + (a.queue + [txSeq]) == (AcksOn(a.attempts) + a.queue) + [txSeq];
  }

  lemma TryIsRegular(link: Link, i: nat, pkt: LpPacket, acks: seq<Seq64>)
    requires pkt.acks == []
    requires acks != [] ==> !IsBare(pkt) && ACK_SIZE * |acks| <= AckRoom(WireSize(pkt), link.mtu(i))
    ensures Regular(Try(link, i, pkt, acks), link.mtu(i), link.congested(i))
  {
  }

  lemma AttemptKeepsFifo(a: AckState, t: Attempt, rest: seq<Seq64>)
    requires Fifo(a) && t.acks + rest == a.queue
    requires Regular(t, a.link.mtu(|a.attempts|), a.link.congested(|a.attempts|))
    ensures Fifo(a.(queue := rest, attempts := a.attempts + [t]))
  {
    hide Regular;
    assert (a.attempts + [t])[..|a.attempts|] == a.attempts;
    assert (AcksOn(a.attempts) + t.acks) + rest == AcksOn(a.attempts) + a.queue;
  }

  lemma PassKeepsFifo(a: AckState, pkt: LpPacket)
    requires Fifo(a) && pkt.acks == []
    ensures Fifo(Pass(a, pkt))
  {
    hide Fifo, Regular;
    TryIsRegular(a.link, |a.attempts|, pkt, []);
    assert [] + a.queue == a.queue;
    AttemptKeepsFifo(a, Try(a.link, |a.attempts|, pkt, []), a.queue);
  }

  lemma TransmitKeepsFifo(a: AckState, pkt: LpPacket)
    requires Fifo(a) && pkt.acks == [] && !IsBare(pkt)
    ensures Fifo(Transmit(a, pkt))
  {
    hide Fifo, Regular, IsBare, WireSize, AckRoom;
    var i := |a.attempts|;
    var k := Attached(pkt, a.queue, a.link.mtu(i));
    TryIsRegular(a.link, i, pkt, a.queue[..k]);
    assert a.queue[..k] + a.queue[k..] == a.queue;
    AttemptKeepsFifo(a, Try(a.link, i, pkt, a.queue[..k]), a.queue[k..]);
  }

  /** Acks that left and acks that were dropped are together the acks of all packets. */
  lemma {:induction false} SentAndDropped(ts: seq<Attempt>)
    ensures multiset(AcksOn(SentOf(ts))) + multiset(AcksOn(DroppedOf(ts))) == multiset(AcksOn(ts))
  {
    if ts != [] {
      var n := |ts| - 1;
      SentAndDropped(ts[..n]);
      var sent, dropped := SentOf(ts[..n]), DroppedOf(ts[..n]);
      assert (sent + [ts[n]])[..|sent|] == sent && (dropped + [ts[n]])[..|dropped|] == dropped;
      assert sent + [] == sent && dropped + [] == dropped;
    }
  }

  // ---------------------------------------------------------------- sizes

  /** Octets of the TLV-VALUE of an LpPacket that is `size` octets long. */
  function ValueSize(size: nat): (v: int) {
    if size <= 254 then size - 2
    else if size <= 0xffff + 4 then size - 4
    else if size <= 0xffff_ffff + 6 then size - 6
    else size - 10
  }

  lemma ValueSizeInverts(v: nat)
    ensures ValueSize(LpSize(v)) == v
  {
  }

  /** Octets by which a mark lengthens the packet; it replaces one that is already there. */
  function MarkGrowth(pkt: LpPacket, marked: bool): (g: int) {
    if marked then 5 - IntFieldSize(3, pkt.congestionMark) else 0
  }

  /** The size of a packet of `size` octets after fields of `extra` octets have been added. */
  function Resized(size: nat, extra: int): (s: int) {
    var v := ValueSize(size) + extra;
    if v < 0 then 0 else LpSize(v)
  }

  lemma FinalSize(t: Attempt)
    requires !IsBare(t.packet) && t.packet.acks == []
    ensures WireSize(Final(t)) == Resized(WireSize(t.packet), ACK_SIZE * |t.acks| + MarkGrowth(t.packet, t.marked))
    ensures MarkGrowth(t.packet, t.marked) <= 5
  {
    var value := HeaderSize(t.packet) + FragmentSize(t.packet);
    ValueSizeInverts(value);
    var q := t.packet.(acks := t.acks);
    assert t.packet.acks + t.acks == t.acks;
    assert HeaderSize(q) == HeaderSize(t.packet) + ACK_SIZE * |t.acks|;
    assert IntFieldSize(3, Some(1)) == 5;
    assert HeaderSize(Final(t)) == HeaderSize(q) + MarkGrowth(t.packet, t.marked);
  }

  /** Octets by which the TLV-LENGTH grows when `extra` octets are added. */
  function LengthGrowth(size: nat, extra: int): (g: int) {
    var v := ValueSize(size);
    if v < 0 || v + extra < 0 then 0 else VarSize(v + extra) - VarSize(v)
  }

  /** Exactly when sendLpPacket drops a packet with acks, and the acks with it: when the octets
      left over are fewer than what the mark and the TLV-LENGTH still add.  For packets with a
      TLV-LENGTH of at most 3 octets, the TLV-LENGTH grows by 2 if it was 1 octet and is
      not any more; without a mark this takes a packet of 253 or 254 octets. */
  predicate LostExactly(t: Attempt, mtu: int, marked: bool) {
    var before, added, mark := WireSize(t.packet), ACK_SIZE * |t.acks|, MarkGrowth(t.packet, marked);
    if mtu == MTU_UNLIMITED then t.passed
    else
      && (!t.passed <==> mtu - before - added < mark + LengthGrowth(before, added + mark))
      && (mtu <= 0xffff + 4 ==>
            (!t.passed <==>
              mtu - before - added < mark + if before <= 254 && before + added + mark >= 255 then 2 else 0))
      && (mtu <= 0xffff + 4 && !marked ==>
            (!t.passed <==> (before == 253 || before == 254) && mtu - before - added < 2))
  }

  lemma AcksAreLostIff(t: Attempt, mtu: int, marked: bool)
    requires Regular(t, mtu, marked) && t.acks != []
    ensures LostExactly(t, mtu, marked)
  {
    assert !marked ==> MarkGrowth(t.packet, marked) == 0;
    hide WireSize, IsBare, MarkGrowth, LpSize, LengthGrowth, AckRoom, Final;
    var v := FinalParts(t);
    LostBySize(v, ACK_SIZE * |t.acks|, MarkGrowth(t.packet, marked), mtu);
  }

  lemma FinalParts(t: Attempt) returns (v: nat)
    requires !IsBare(t.packet) && t.packet.acks == [] && t.acks != []
    ensures var mark := MarkGrowth(t.packet, t.marked);
      && WireSize(t.packet) == LpSize(v) && -7 <= mark <= 5
      && v + ACK_SIZE * |t.acks| + mark >= 0
      && WireSize(Final(t)) == LpSize(v + ACK_SIZE * |t.acks| + mark)
  {
    v := HeaderSize(t.packet) + FragmentSize(t.packet);
    FinalSize(t);
    ValueSizeInverts(v);
  }

  lemma LostBySize(v: nat, added: nat, mark: int, mtu: int)
    requires added >= ACK_SIZE && -7 <= mark <= 5 && added <= AckRoom(LpSize(v), mtu)
    ensures ValueSize(LpSize(v)) == v && Resized(LpSize(v), added + mark) == LpSize(v + added + mark)
    ensures var before := LpSize(v);
      && (mtu != MTU_UNLIMITED ==>
            (LpSize(v + added + mark) > mtu <==> mtu - before - added < mark + LengthGrowth(before, added + mark)))
      && (mtu != MTU_UNLIMITED && mtu <= 0xffff + 4 ==>
            (LpSize(v + added + mark) > mtu <==>
              mtu - before - added < mark + if before <= 254 && before + added + mark >= 255 then 2 else 0))
      && (mtu != MTU_UNLIMITED && mtu <= 0xffff + 4 && mark == 0 ==>
            (LpSize(v + added) > mtu <==> (before == 253 || before == 254) && mtu - before - added < 2))
  {
    ValueSizeInverts(v);
  }

  /** Attached acks are accounted at 12 octets each; only the TLV-LENGTH of the whole packet
      can grow beyond what was reserved for it. */
  lemma SizeWithAcks(pkt: LpPacket, queue: seq<Seq64>, mtu: int)
    requires !IsBare(pkt)
    ensures var k := Attached(pkt, queue, mtu);
            var value := HeaderSize(pkt) + FragmentSize(pkt);
            WireSize(pkt) == LpSize(value)
            && WireSize(WithAcks(pkt, queue, mtu)) == LpSize(value + ACK_SIZE * k)
  {
    var k := Attached(pkt, queue, mtu);
    var r := WithAcks(pkt, queue, mtu);
    assert |r.acks| == |pkt.acks| + k;
    assert HeaderSize(r) == HeaderSize(pkt) + ACK_SIZE * k;
  }

  /** The MTU that piggyback works with. */
  function Limit(mtu: int): (l: int) {
    if mtu == MTU_UNLIMITED then MAX_NDN_PACKET_SIZE else mtu
  }

  /** A packet that was given acks exceeds the limit exactly when its TLV-LENGTH grows by more
      than the octets left over.  With a TLV-LENGTH of at most 3 octets this takes a packet of
      253 or 254 octets (its size, but not its TLV-LENGTH, needs a 3-octet number) with fewer
      than 2 octets left over, and the excess is at most 2 octets. */
  lemma PiggybackRespectsMtu(pkt: LpPacket, queue: seq<Seq64>, mtu: int)
    requires !IsBare(pkt)
    requires Attached(pkt, queue, mtu) > 0
    ensures var added := ACK_SIZE * Attached(pkt, queue, mtu);
            var before := WireSize(pkt);
            var after := WireSize(WithAcks(pkt, queue, mtu));
            && (after > Limit(mtu) <==> Limit(mtu) - before - added < LengthGrowth(before, added))
            && after <= Limit(mtu) + 10
            && (Limit(mtu) <= 0xffff + 4 ==>
                  && (after > Limit(mtu) <==> (before == 253 || before == 254) && Limit(mtu) - before - added < 2)
                  && after <= Limit(mtu) + 2)
  {
    SizeWithAcks(pkt, queue, mtu);
    ValueSizeInverts(HeaderSize(pkt) + FragmentSize(pkt));
    assert ACK_SIZE * Attached(pkt, queue, mtu) <= AckRoom(WireSize(pkt), mtu);
  }

  /** Such a packet exists: 254 octets, MTU 266, one ack waiting. */
  lemma PiggybackCanExceedMtu(payload: seq<Byte>)
    requires |payload| == 228
    ensures var pkt := IDLE.(sequence := Some(0), txSequence := Some(0), fragment := Some(payload));
            WireSize(pkt) == 254 && WireSize(WithAcks(pkt, [7], 266)) == 268
  {
    var pkt := IDLE.(sequence := Some(0), txSequence := Some(0), fragment := Some(payload));
    assert HeaderSize(pkt) == 22 && FragmentSize(pkt) == 230;
    assert Attached(pkt, [7], 266) == 1;
    SizeWithAcks(pkt, [7], 266);
  }

  /** A mark added after the acks: an IDLE packet with five acks on a 64-octet link is dropped. */
  lemma MarkAfterAcksCanExceedMtu(queue: seq<Seq64>)
    requires |queue| == 5
    ensures var a := AckState(Link(_ => 64, _ => true), queue, queue, []);
            var r := Transmit(a, IDLE);
            r.queue == [] && r.attempts[0].acks == queue && !r.attempts[0].passed
  {
    SizeWithAcks(IDLE, queue, 64);
    assert Attached(IDLE, queue, 64) == 5;
    assert queue[..5] == queue;
    var t := Try(Link(_ => 64, _ => true), 0, IDLE, queue);
    FinalSize(t);
    assert [] + queue == queue;
    assert WireSize(IDLE) == 2;
  }

  // ---------------------------------------------------------------- the idle timer

  /** An IDLE packet takes an ack along exactly when the MTU is unlimited or at least 16. */
  lemma IdleTakesAnAck(queue: seq<Seq64>, mtu: int)
    requires queue != []
    ensures Attached(IDLE, queue, mtu) > 0 <==> mtu == MTU_UNLIMITED || mtu >= 16
  {
    assert WireSize(IDLE) == 2;
  }

  /** Without a mark an IDLE packet with acks is never over an MTU of up to 65539 octets. */
  lemma UnmarkedIdleIsSent(t: Attempt, mtu: int)
    requires Regular(t, mtu, false) && t.packet == IDLE && t.acks != [] && mtu <= 0xffff + 4
    ensures t.passed
  {
    FinalSize(t);
    assert WireSize(IDLE) == 2;
  }

  ghost predicate IsIdle(a: AckState, i: nat)
    requires i < |a.attempts|
  {
    && a.attempts[i].packet == IDLE && a.attempts[i].acks != []
    && (!a.link.congested(i) && a.link.mtu(i) <= 0xffff + 4 ==> a.attempts[i].passed)
  }

  /** One iteration of the handler's loop. */
  lemma IdleStep(a: AckState)
    requires Fifo(a) && a.queue != []
    requires var mtu := a.link.mtu(|a.attempts|); mtu == MTU_UNLIMITED || mtu >= 16
    ensures var r := Transmit(a, IDLE);
      && Fifo(r) && |r.queue| < |a.queue| && r.queued == a.queued && r.link == a.link
      && |r.attempts| == |a.attempts| + 1 && r.attempts[..|a.attempts|] == a.attempts
      && IsIdle(r, |a.attempts|)
  {
    hide Regular, AckCount, AckRoom, WireSize;
    var i, r := |a.attempts|, Transmit(a, IDLE);
    IdleTakesAnAck(a.queue, a.link.mtu(i));
    TransmitKeepsFifo(a, IDLE);
    assert Regular(r.attempts[i], r.link.mtu(i), r.link.congested(i));
    if !r.link.congested(i) && r.link.mtu(i) <= 0xffff + 4 {
      UnmarkedIdleIsSent(r.attempts[i], r.link.mtu(i));
    }
  }

  /** The idle-ack timer handler: IDLE packets are requested until no ack waits.  It ends if
      the MTU always leaves room for one ack.  Every ack is then on one packet, in order; each
      new packet is an IDLE packet with acks, dropped exactly as AcksAreLostIff says: up to an
      MTU of 65539 octets only for a congestion mark. */
  method DrainOnIdle(a: AckState) returns (r: AckState)
    requires forall i :: i >= |a.attempts| ==> a.link.mtu(i) == MTU_UNLIMITED || a.link.mtu(i) >= 16
    requires Fifo(a)
    ensures Fifo(r) && r.link == a.link && r.queue == [] && r.queued == a.queued
    ensures AcksOn(r.attempts) == a.queued && a.attempts <= r.attempts
    ensures multiset(AcksOn(SentOf(r.attempts))) + multiset(AcksOn(DroppedOf(r.attempts))) == multiset(a.queued)
    ensures forall i :: |a.attempts| <= i < |r.attempts| ==> IsIdle(r, i)
  {
    hide Fifo, Transmit;
    r := a;
    while r.queue != []
      invariant Fifo(r) && r.queued == a.queued && r.link == a.link
      invariant a.attempts <= r.attempts
      invariant forall i :: |a.attempts| <= i < |r.attempts| ==> IsIdle(r, i)
      decreases |r.queue|
    {
      IdleStep(r);
      ghost var was := r;
      r := Transmit(r, IDLE);
      forall j | |a.attempts| <= j < |was.attempts|
        ensures IsIdle(r, j)
      {
        assert IsIdle(was, j) && r.attempts[..|was.attempts|][j] == was.attempts[j];
      }
    }
    FifoMeans(r);
    assert AcksOn(r.attempts) + [] == AcksOn(r.attempts);
    SentAndDropped(r.attempts);
  }

  lemma FifoMeans(a: AckState)
    requires Fifo(a)
    ensures AcksOn(a.attempts) + a.queue == a.queued
  {
  }

  /** Below 16 octets the handler's loop makes no progress at all. */
  lemma DrainStuckBelow16(a: AckState)
    requires a.queue != [] && a.link.mtu(|a.attempts|) < 16 && a.link.mtu(|a.attempts|) != MTU_UNLIMITED
    ensures Transmit(a, IDLE).queue == a.queue
  {
    IdleTakesAnAck(a.queue, a.link.mtu(|a.attempts|));
  }
}
