/** Link integrity for what link services really send: each endpoint numbers the fragments of
    its calls of sendNetPacket one after the other. */
module LinkSenders {
  import opened Basics
  import opened LpPackets
  import opened LpFragmenters
  import opened LpReassemblers
  import opened LinkServices
  import opened LinkIntegrity
  import AckQueue
  import W = LpWindow
  import R = LpWindowRuns
  import C = LpWindowContents

  /** One call of sendNetPacket that did not fail: the packet and what was sent for it. */
  datatype Sending = Sending(packet: LpPacket, frags: seq<LpPacket>)

  /** An endpoint: its options, its first m_lastSeqNo, and its calls of sendNetPacket. */
  datatype Sender = Sender(options: LinkOptions, last: Seq64, sendings: seq<Sending>)

  /** What SendNetPacket guarantees of its fragments. */
  ghost predicate Proper(s: Sending) {
    && IsNetworkPacket(s.packet) && 1 <= |s.frags| < TWO64
    && (s.frags == [s.packet] || IsFragmentation(s.packet, s.frags))
  }

  ghost predicate AllProper(ss: seq<Sending>) {
    forall i :: 0 <= i < |ss| ==> Proper(ss[i])
  }

  /** How many Sequences the call assigns. */
  function Count(o: LinkOptions, s: Sending): (n: nat) {
    if o.reliable || |s.frags| > 1 then |s.frags| else 0
  }

  function Used(o: LinkOptions, ss: seq<Sending>): (n: nat) {
    if ss == [] then 0 else Used(o, ss[..|ss| - 1]) + Count(o, ss[|ss| - 1])
  }

  /** m_lastSeqNo after the calls. */
  ghost function LastAfter(o: LinkOptions, last: Seq64, ss: seq<Sending>): (r: Seq64)
    requires AllProper(ss)
  {
    if ss == [] then last else Plus(LastAfter(o, last, ss[..|ss| - 1]), Count(o, ss[|ss| - 1]))
  }

  lemma {:induction false} LastIsAdvanced(o: LinkOptions, last: Seq64, ss: seq<Sending>)
    requires AllProper(ss) && Used(o, ss) < TWO64
    ensures LastAfter(o, last, ss) == Plus(last, Used(o, ss))
  {
    if ss != [] {
      LastIsAdvanced(o, last, ss[..|ss| - 1]);
    }
  }

  lemma {:induction false} UsedGrows(o: LinkOptions, ss: seq<Sending>, i: nat, j: nat)
    requires i < j <= |ss|
    ensures Used(o, ss[..i]) + Count(o, ss[i]) <= Used(o, ss[..j])
  {
    assert ss[..j][..j - 1] == ss[..j - 1] && ss[..j][j - 1] == ss[j - 1];
    if i < j - 1 {
      UsedGrows(o, ss, i, j - 1);
    }
  }

  /** The message of call `j`, if it was sent in several fragments. */
  ghost function MessageOf(endpoint: nat, s: Sender, j: nat): (m: Message)
    requires AllProper(s.sendings) && j < |s.sendings|
  {
    Message(endpoint, Plus(LastAfter(s.options, s.last, s.sendings[..j]), 1), s.sendings[j].packet, s.sendings[j].frags)
  }

  ghost predicate Fragmented(s: Sender, j: nat) {
    j < |s.sendings| && |s.sendings[j].frags| > 1
  }

  lemma BasesDiffer(endpoint: nat, s: Sender, i: nat, j: nat)
    requires AllProper(s.sendings) && Used(s.options, s.sendings) <= TWO64
    requires Fragmented(s, i) && Fragmented(s, j) && i < j
    ensures MessageOf(endpoint, s, i).base != MessageOf(endpoint, s, j).base
  {
    var ss := s.sendings;
    assert ss[..|ss|] == ss;
    UsedGrows(s.options, ss, i, j);
    UsedGrows(s.options, ss, j, |ss|);
    LastIsAdvanced(s.options, s.last, ss[..i]);
    LastIsAdvanced(s.options, s.last, ss[..j]);
  }

  ghost function Messages(endpoint: nat, s: Sender): (ms: set<Message>)
    requires AllProper(s.sendings)
  {
    set j | 0 <= j < |s.sendings| && Fragmented(s, j) :: MessageOf(endpoint, s, j)
  }

  /** `ms` are the messages that the senders have sent. */
  ghost predicate SentBy(senders: map<nat, Sender>, ms: set<Message>)
    requires forall e :: e in senders ==> AllProper(senders[e].sendings)
  {
    forall m :: m in ms <==> m.endpoint in senders && m in Messages(m.endpoint, senders[m.endpoint])
  }

  /** As long as no endpoint has numbered more than 2^64 fragments, no first Sequence is used
      twice, and every message is a proper fragmentation. */
  lemma SendersReuseNothing(senders: map<nat, Sender>, ms: set<Message>)
    requires forall e :: e in senders ==> AllProper(senders[e].sendings)
    requires forall e :: e in senders ==> Used(senders[e].options, senders[e].sendings) <= TWO64
    requires SentBy(senders, ms)
    ensures NoReuse(ms) && forall m :: m in ms ==> Sent(m)
  {
    hide IsFragmentation, LastAfter;
    forall m, n | m in ms && n in ms && KeyOfMessage(m) == KeyOfMessage(n)
      ensures m == n
    {
      var s := senders[m.endpoint];
      var i :| 0 <= i < |s.sendings| && Fragmented(s, i) && MessageOf(m.endpoint, s, i) == m;
      var j :| 0 <= j < |s.sendings| && Fragmented(s, j) && MessageOf(m.endpoint, s, j) == n;
      if i < j {
        BasesDiffer(m.endpoint, s, i, j);
      } else if j < i {
        BasesDiffer(m.endpoint, s, j, i);
      }
    }
    forall m | m in ms
      ensures Sent(m)
    {
      var s := senders[m.endpoint];
      var i :| 0 <= i < |s.sendings| && Fragmented(s, i) && MessageOf(m.endpoint, s, i) == m;
      assert Proper(s.sendings[i]);
    }
  }

  /** The packet was emitted by call `j` of the sender as its fragment `i`. */
  ghost predicate EmittedBy(s: Sender, j: nat, i: nat, p: LpPacket)
    requires AllProper(s.sendings)
  {
    && j < |s.sendings| && i < |s.sendings[j].frags| < TWO64
    && Emitted(s.options, LastAfter(s.options, s.last, s.sendings[..j]), s.sendings[j].frags, i, p)
  }

  /** A delivered packet is one that its endpoint passed to its transport, or carries no Fragment,
      as IDLE packets do. */
  ghost predicate Offered(senders: map<nat, Sender>, e: Event)
    requires forall e :: e in senders ==> AllProper(senders[e].sendings)
  {
    e.Deliver? && e.packet.fragment.Some? ==>
      e.endpoint in senders && exists j: nat, i: nat :: EmittedBy(senders[e.endpoint], j, i, e.packet)
  }

  lemma SingleIsWhole(s: Sending)
    requires Proper(s) && |s.frags| == 1
    ensures s.frags == [s.packet] && s.packet.fragCount.None?
  {
  }

  lemma OfferedIsLegal(senders: map<nat, Sender>, ms: set<Message>, e: Event)
    requires forall e :: e in senders ==> AllProper(senders[e].sendings)
    requires SentBy(senders, ms) && Offered(senders, e)
    ensures Legal(e, ms)
  {
    hide IsFragmentation, LastAfter;
    if e.Deliver? && e.packet.fragment.Some? {
      var s := senders[e.endpoint];
      var j: nat, i: nat :| EmittedBy(s, j, i, e.packet);
      var sending := s.sendings[j];
      assert Proper(sending);
      if |sending.frags| > 1 {
        EmittedCarries(s.options, LastAfter(s.options, s.last, s.sendings[..j]), sending.packet, sending.frags, i, e.packet, e.endpoint);
        assert Fragmented(s, j);
        assert MessageOf(e.endpoint, s, j) in ms;
        assert Carries(e.packet, MessageOf(e.endpoint, s, j), i);
      } else {
        SingleIsWhole(sending);
      }
    }
  }

  /** A completed packet has the bytes and first headers of one call of its endpoint. */
  ghost predicate WasSent(senders: map<nat, Sender>, e: Event, outcome: Outcome) {
    outcome.Complete? ==>
      && e.Deliver? && e.endpoint in senders
      && exists j :: 0 <= j < |senders[e.endpoint].sendings| && Reproduces(senders[e.endpoint].sendings[j].packet, outcome)
  }

  predicate Reproduces(packet: LpPacket, outcome: Outcome) {
    && outcome.Complete? && Some(outcome.netPkt) == packet.fragment
    && outcome.firstFrag.others == packet.others
  }

  /** A packet that arrives complete on its own. */
  lemma WholeWasSent(senders: map<nat, Sender>, parts: Partials, e: Event, o: Options)
    requires forall e :: e in senders ==> AllProper(senders[e].sendings)
    requires WellFormed(parts) && Offered(senders, e) && e.Deliver? && FragCountOf(e.packet) == 1
    ensures WasSent(senders, e, Apply(parts, e, o).1)
  {
    hide IsFragmentation, LastAfter;
    if e.packet.fragment.Some? {
      var s := senders[e.endpoint];
      var j: nat, i: nat :| EmittedBy(s, j, i, e.packet);
      var sending := s.sendings[j];
      assert Proper(sending);
      if |sending.frags| > 1 {
        var last := LastAfter(s.options, s.last, s.sendings[..j]);
        EmittedCarries(s.options, last, sending.packet, sending.frags, i, e.packet, e.endpoint);
        CarriesKey(e.packet, Message(e.endpoint, Plus(last, 1), sending.packet, sending.frags), i, 0);
      } else {
        SingleIsWhole(sending);
        var outcome := Apply(parts, e, o).1;
        assert outcome.Complete? ==> Reproduces(s.sendings[j].packet, outcome);
      }
    }
  }

  /** A packet that is completed by a fragment. */
  lemma MessageWasSent(senders: map<nat, Sender>, ms: set<Message>, e: Event, outcome: Outcome)
    requires forall e :: e in senders ==> AllProper(senders[e].sendings)
    requires SentBy(senders, ms) && DeliversSent(e, outcome, ms) && e.Deliver? && FragCountOf(e.packet) != 1
    ensures WasSent(senders, e, outcome)
  {
    hide IsFragmentation, LastAfter, Carries;
    if outcome.Complete? {
      var m :| m in ms && m.endpoint == e.endpoint && Faithful(outcome, m);
      var s := senders[m.endpoint];
      var j :| 0 <= j < |s.sendings| && Fragmented(s, j) && MessageOf(m.endpoint, s, j) == m;
      assert Proper(s.sendings[j]) && Reproduces(s.sendings[j].packet, outcome);
    }
  }

  /** End to end.  For any endpoints that send any packets through sendNetPacket and number up to
      2^64 fragments each, and any schedule of loss, duplication, reordering, interleaving, IDLE
      packets and timeouts, every packet that completes is one that its endpoint sent. */
  lemma WhatArrivesWasSent(senders: map<nat, Sender>, ms: set<Message>, es: seq<Event>, o: Options, n: nat)
    requires forall e :: e in senders ==> AllProper(senders[e].sendings)
    requires forall e :: e in senders ==> Used(senders[e].options, senders[e].sendings) <= TWO64
    requires SentBy(senders, ms) && n < |es|
    requires forall i :: 0 <= i < |es| ==> Offered(senders, es[i])
    ensures DeliversSent(es[n], Apply(After(es[..n], o), es[n], o).1, ms)
    ensures WasSent(senders, es[n], Apply(After(es[..n], o), es[n], o).1)
  {
    hide Offered, SentBy, NoReuse, Legal, AllProper, DeliversSent, WasSent;
    SendersReuseNothing(senders, ms);
    forall i | 0 <= i < |es|
      ensures Legal(es[i], ms)
    {
      OfferedIsLegal(senders, ms, es[i]);
    }
    IntegrityInEveryRun(es, ms, o, n);
    var parts, outcome := After(es[..n], o), Apply(After(es[..n], o), es[n], o).1;
    if es[n].Timeout? {
      TimeoutCompletesNothing(senders, parts, es[n], o);
    } else if FragCountOf(es[n].packet) == 1 {
      WholeWasSent(senders, parts, es[n], o);
    } else {
      MessageWasSent(senders, ms, es[n], outcome);
    }
  }

  lemma TimeoutCompletesNothing(senders: map<nat, Sender>, parts: Partials, e: Event, o: Options)
    requires WellFormed(parts) && e.Timeout?
    ensures WasSent(senders, e, Apply(parts, e, o).1)
  {
  }

  // ---------------------------------------------------------------- packets complete on their own

  /** A packet sent whole comes back at once, with its bytes and headers, exactly if the reassembler
      accepts single packets and the bytes are valid TLV; no partial packet changes. */
  lemma SinglePacketRoundTrip(s: Sender, j: nat, parts: Partials, endpoint: nat, p: LpPacket, o: Options)
    requires AllProper(s.sendings) && WellFormed(parts)
    requires j < |s.sendings| && |s.sendings[j].frags| == 1 && EmittedBy(s, j, 0, p)
    ensures var r, sent := Apply(parts, Deliver(endpoint, p), o), s.sendings[j].packet;
      && r.0 == parts
      && (r.1.Complete? <==> o.nMaxFragments >= 1 && o.isTlv(sent.fragment.value))
      && (r.1.Complete? ==> r.1.netPkt == sent.fragment.value && r.1.firstFrag == p && p.others == sent.others)
      && (r.1.Malformed? <==> o.nMaxFragments >= 1 && !o.isTlv(sent.fragment.value))
  {
    hide IsFragmentation, LastAfter;
    assert Proper(s.sendings[j]);
    SingleIsWhole(s.sendings[j]);
  }

  // ---------------------------------------------------------------- retransmissions

  /** The send window of a reliable sender was given the numbered fragments of its calls, and each
      packet it was asked to send is one of them with a TxSequence, or has no Fragment. */
  ghost predicate Feeds(s: Sender, es: seq<R.Event>)
    requires AllProper(s.sendings)
  {
    var handed := C.Handed(es);
    && |handed| <= |s.sendings|
    && (forall j :: 0 <= j < |handed| ==> |handed[j]| == |s.sendings[j].frags|)
    && (forall j, i :: 0 <= j < |handed| && 0 <= i < |handed[j]| ==> IsNumbered(s, j, i, handed[j][i]))
    && (forall p :: p in C.Passed(es) ==> p.fragment.None? || C.IsRetransmission(handed, p))
  }

  ghost predicate IsNumbered(s: Sender, j: nat, i: nat, p: LpPacket)
    requires AllProper(s.sendings)
  {
    && j < |s.sendings| && i < |s.sendings[j].frags| < TWO64
    && Numbered(s.options, LastAfter(s.options, s.last, s.sendings[..j]), s.sendings[j].frags, i, p)
  }

  /** Every packet that a reliable sender passes to its transport, for the first time or again, is
      one the integrity theorem admits: a fragment of one of its calls, or without Fragment. */
  lemma EveryTransmissionIsOffered(senders: map<nat, Sender>, endpoint: nat, es: seq<R.Event>, opts: W.Options, i: nat)
    requires (forall e :: e in senders ==> AllProper(senders[e].sendings)) && endpoint in senders
    requires var s := senders[endpoint]; s.options.reliable && Matches(opts.link, s.options) && Feeds(s, es)
    requires R.Run(es, opts).Some? && i < |R.Run(es, opts).value.acks.attempts| && R.Run(es, opts).value.acks.attempts[i].passed
    ensures Offered(senders, Deliver(endpoint, AckQueue.Final(R.Run(es, opts).value.acks.attempts[i])))
  {
    var s, a, handed := senders[endpoint], R.Run(es, opts).value.acks, C.Handed(es);
    C.ContentsInEveryRun(es, opts);
    R.AcksInEveryRun(es, opts);
    R.GoodHasFifo(R.Run(es, opts).value, opts.maxRetx);
    hide R.Run, R.Good, AllProper, LastAfter, WireSize;
    var t := a.attempts[i];
    assert AckQueue.Regular(t, a.link.mtu(i), a.link.congested(i));
    if t.packet.fragment.Some? {
      assert C.IsRetransmission(handed, t.packet);
      var n: nat, k: nat :| C.IsCopy(handed, n, k, t.packet);
      CopyIsEmitted(s, n, k, handed[n][k], t);
    }
  }

  lemma CopyIsEmitted(s: Sender, j: nat, i: nat, q: LpPacket, t: AckQueue.Attempt)
    requires AllProper(s.sendings) && IsNumbered(s, j, i, q)
    requires t.packet.txSequence.Some? && t.packet == q.(txSequence := t.packet.txSequence)
    requires !OverMtu(AckQueue.Final(t), EffectiveMtu(s.options))
    ensures EmittedBy(s, j, i, AckQueue.Final(t))
  {
    hide WireSize, LastAfter;
    assert InTransit(q, AckQueue.Final(t));
  }
}
