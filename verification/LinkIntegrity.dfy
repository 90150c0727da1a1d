/** Fragmentation, numbering and reassembly together, over every schedule of loss,
    duplication, reordering, interleaving and timeouts. */
module LinkIntegrity {
  import opened Basics
  import opened LpPackets
  import opened LpFragmenters
  import opened LpReassemblers
  import LinkServices

  /** A network packet that an endpoint sent in several fragments, numbered from `base`. */
  datatype Message = Message(endpoint: nat, base: Seq64, packet: LpPacket, frags: seq<LpPacket>)

  ghost predicate Sent(m: Message) {
    IsFragmentation(m.packet, m.frags)
  }

  function KeyOfMessage(m: Message): (k: Key) {
    Key(m.endpoint, m.base)
  }

  /** Fragment `i` of the message with its Sequence. */
  function FragmentOf(m: Message, i: nat): (p: LpPacket)
    requires i < |m.frags| < TWO64
  {
    m.frags[i].(sequence := Some(Plus(m.base, i)))
  }

  /** `p` is fragment `i` of `m` as the link may deliver it. */
  ghost predicate Carries(p: LpPacket, m: Message, i: nat) {
    i < |m.frags| < TWO64 && LinkServices.InTransit(FragmentOf(m, i), p)
  }

  /** No two messages of one endpoint start at the same Sequence. */
  ghost predicate NoReuse(ms: set<Message>) {
    forall m, n :: m in ms && n in ms && KeyOfMessage(m) == KeyOfMessage(n) ==> m == n
  }

  lemma CarriesKey(p: LpPacket, m: Message, i: nat, nMaxFragments: nat)
    requires Sent(m) && Carries(p, m, i)
    ensures FragIndexOf(p) == i && FragCountOf(p) == |m.frags| && p.sequence.Some? && p.fragment.Some?
    ensures Payload(p) == Payload(m.frags[i])
    ensures Minus(p.sequence.value, i) == m.base
    ensures |m.frags| <= nMaxFragments ==> KeyOf(m.endpoint, p, nMaxFragments) == Some(KeyOfMessage(m))
  {
    var f := m.frags[i];
    assert f == Fragment(m.packet, i, |m.frags|, Payload(f));
  }

  // ---------------------------------------------------------------- integrity

  /** Every filled slot of a partial packet carries the fragment of the one message with that
      key. */
  ghost predicate Genuine(parts: Partials, ms: set<Message>) {
    forall k :: k in parts ==>
      exists m :: m in ms && KeyOfMessage(m) == k && HoldsPartOf(parts[k], m)
  }

  ghost predicate HoldsPartOf(pp: PartialPacket, m: Message) {
    && |pp.fragments| == pp.fragCount == |m.frags|
    && pp.nReceivedFragments == CountFilled(pp.fragments)
    && forall i :: 0 <= i < |pp.fragments| ==> SlotOk(pp.fragments[i], m, i)
  }

  ghost predicate SlotOk(p: LpPacket, m: Message, i: nat) {
    Filled(p) ==> Carries(p, m, i)
  }

  function CountFilled(frags: seq<LpPacket>): (n: nat)
    ensures n <= |frags|
  {
    if frags == [] then 0
    else CountFilled(frags[..|frags| - 1]) + if Filled(frags[|frags| - 1]) then 1 else 0
  }

  lemma {:induction false} CountFilledUpdate(frags: seq<LpPacket>, i: nat, p: LpPacket)
    requires i < |frags| && !Filled(frags[i]) && Filled(p)
    ensures CountFilled(frags[i := p]) == CountFilled(frags) + 1
  {
    var n := |frags| - 1;
    if i == n {
      assert frags[i := p][..n] == frags[..n];
    } else {
      assert frags[i := p][..n] == frags[..n][i := p];
      CountFilledUpdate(frags[..n], i, p);
    }
  }

  lemma {:induction false} CountFilledFull(frags: seq<LpPacket>, i: nat)
    requires CountFilled(frags) == |frags| && i < |frags|
    ensures Filled(frags[i])
  {
    var n := |frags| - 1;
    if i < n {
      assert frags[i] == frags[..n][i];
      CountFilledFull(frags[..n], i);
    }
  }

  lemma {:induction false} CountFilledFresh(n: nat)
    ensures CountFilled(Fresh(n).fragments) == 0
  {
    if n > 0 {
      assert Fresh(n).fragments[..n - 1] == Fresh(n - 1).fragments;
      CountFilledFresh(n - 1);
    }
  }

  lemma {:induction false} JoinOfPayloads(a: seq<LpPacket>, b: seq<LpPacket>)
    requires |a| == |b| && forall i :: 0 <= i < |a| ==> Payload(a[i]) == Payload(b[i])
    ensures Join(a) == Join(b)
  {
    if a != [] {
      JoinOfPayloads(a[..|a| - 1], b[..|b| - 1]);
    }
  }

  lemma FreshHoldsPart(m: Message)
    ensures HoldsPartOf(Fresh(|m.frags|), m)
  {
    CountFilledFresh(|m.frags|);
  }

  lemma StoreHoldsPart(pp: PartialPacket, m: Message, i: nat, p: LpPacket)
    requires Sent(m) && HoldsPartOf(pp, m) && Carries(p, m, i) && !Filled(pp.fragments[i])
    ensures HoldsPartOf(Store(pp, i, p), m)
  {
    CarriesKey(p, m, i, 0);
    CountFilledUpdate(pp.fragments, i, p);
    var pp' := Store(pp, i, p);
    forall j | 0 <= j < |pp'.fragments|
      ensures SlotOk(pp'.fragments[j], m, j)
    {
      assert SlotOk(pp.fragments[j], m, j);
    }
  }

  /** A full partial packet joins to the bytes that were sent. */
  lemma FullJoinsToPacket(pp: PartialPacket, m: Message)
    requires Sent(m) && HoldsPartOf(pp, m) && pp.nReceivedFragments == pp.fragCount
    ensures Join(pp.fragments) == m.packet.fragment.value
    ensures Carries(pp.fragments[0], m, 0)
  {
    forall i | 0 <= i < |pp.fragments|
      ensures Payload(pp.fragments[i]) == Payload(m.frags[i]) && Carries(pp.fragments[i], m, i)
    {
      CountFilledFull(pp.fragments, i);
      assert SlotOk(pp.fragments[i], m, i);
      CarriesKey(pp.fragments[i], m, i, 0);
    }
    JoinOfPayloads(pp.fragments, m.frags);
  }

  /** `outcome` delivers nothing, or exactly the bytes of `m` with its first fragment. */
  ghost predicate Faithful(outcome: Outcome, m: Message) {
    outcome.Complete? ==>
      && Sent(m)
      && outcome.netPkt == m.packet.fragment.value
      && Carries(outcome.firstFrag, m, 0)
      && outcome.firstFrag.others == m.packet.others
  }

  lemma AddFragmentIsFaithful(parts: Partials, ms: set<Message>, p: LpPacket, m: Message, i: nat, isTlv: seq<Byte> -> bool)
    requires WellFormed(parts) && Genuine(parts, ms) && NoReuse(ms)
    requires m in ms && Sent(m) && Carries(p, m, i)
    requires FragIndexOf(p) < FragCountOf(p)
    ensures var r := AddFragment(parts, KeyOfMessage(m), p, isTlv);
            Genuine(r.0, ms) && Faithful(r.1, m)
  {
    CarriesKey(p, m, i, 0);
    var key := KeyOfMessage(m);
    var pp := Lookup(parts, key, FragCountOf(p));
    if key in parts {
      var n :| n in ms && KeyOfMessage(n) == key && HoldsPartOf(parts[key], n);
      assert n == m;
    } else {
      FreshHoldsPart(m);
    }
    assert HoldsPartOf(pp, m);
    if !Filled(pp.fragments[i]) {
      var pp' := Store(pp, i, p);
      StoreHoldsPart(pp, m, i, p);
      if pp'.nReceivedFragments == pp'.fragCount {
        FullJoinsToPacket(pp', m);
        assert m.frags[0] == Fragment(m.packet, 0, |m.frags|, Payload(m.frags[0]));
      }
      GenuineUpdate(parts, ms, m, pp');
    }
  }

  lemma GenuineUpdate(parts: Partials, ms: set<Message>, m: Message, pp: PartialPacket)
    requires Genuine(parts, ms) && m in ms && HoldsPartOf(pp, m)
    ensures Genuine(parts[KeyOfMessage(m) := pp], ms)
    ensures Genuine(parts - {KeyOfMessage(m)}, ms)
  {
    var parts' := parts[KeyOfMessage(m) := pp];
    forall k | k in parts'
      ensures exists n :: n in ms && KeyOfMessage(n) == k && HoldsPartOf(parts'[k], n)
    {
      if k != KeyOfMessage(m) {
        var n :| n in ms && KeyOfMessage(n) == k && HoldsPartOf(parts[k], n);
        assert HoldsPartOf(parts'[k], n);
      }
    }
  }

  // ---------------------------------------------------------------- schedules

  datatype Event =
    | Deliver(endpoint: nat, packet: LpPacket)
    | Timeout(key: Key)

  /** What the link may deliver: any packet without Fragment or complete on its own, or a fragment
      of a message of its endpoint. */
  ghost predicate Legal(e: Event, ms: set<Message>) {
    e.Deliver? && e.packet.fragment.Some? && FragCountOf(e.packet) != 1 ==>
      exists m, i :: m in ms && m.endpoint == e.endpoint && Carries(e.packet, m, i)
  }

  /** doReceivePacket drops a packet without Fragment; everything else is reassembled. */
  function Apply(parts: Partials, e: Event, o: Options): (r: (Partials, Outcome))
    requires WellFormed(parts)
    ensures WellFormed(r.0)
  {
    match e
    case Deliver(endpoint, packet) =>
      if packet.fragment.None? then (parts, Incomplete)
      else
        ReceiveKeepsWellFormed(parts, endpoint, packet, o);
        Receive(parts, endpoint, packet, o)
    case Timeout(key) => (parts - {key}, Incomplete)
  }

  /** A packet that is not complete on its own yields nothing, or one of the messages. */
  ghost predicate DeliversSent(e: Event, outcome: Outcome, ms: set<Message>) {
    e.Deliver? && FragCountOf(e.packet) != 1 && outcome.Complete? ==>
      exists m :: m in ms && m.endpoint == e.endpoint && Faithful(outcome, m)
  }

  lemma ApplyIsFaithful(parts: Partials, ms: set<Message>, e: Event, o: Options)
    requires WellFormed(parts) && Genuine(parts, ms) && NoReuse(ms) && Legal(e, ms)
    requires forall m :: m in ms ==> Sent(m)
    ensures var r := Apply(parts, e, o);
            Genuine(r.0, ms) && DeliversSent(e, r.1, ms)
  {
    hide HoldsPartOf, IsFragmentation;
    if e.Deliver? && FragCountOf(e.packet) != 1 && e.packet.fragment.Some? {
      var m, i :| m in ms && m.endpoint == e.endpoint && Carries(e.packet, m, i);
      CarriesKey(e.packet, m, i, 0);
      AddFragmentIsFaithful(parts, ms, e.packet, m, i, o.isTlv);
    }
  }

  /** Partial packets after the events `es`, oldest first. */
  function After(es: seq<Event>, o: Options): (parts: Partials)
    ensures WellFormed(parts)
  {
    if es == [] then map[] else Apply(After(es[..|es| - 1], o), es[|es| - 1], o).0
  }

  lemma {:induction false} GenuineAfter(es: seq<Event>, ms: set<Message>, o: Options)
    requires NoReuse(ms) && (forall m :: m in ms ==> Sent(m))
    requires forall i :: 0 <= i < |es| ==> Legal(es[i], ms)
    ensures Genuine(After(es, o), ms)
  {
    if es != [] {
      GenuineAfter(es[..|es| - 1], ms, o);
      assert Legal(es[|es| - 1], ms);
      ApplyIsFaithful(After(es[..|es| - 1], o), ms, es[|es| - 1], o);
    }
  }

  /** Link integrity.  Whatever the link loses, repeats, reorders, interleaves or lets time
      out, each packet completed by a fragment has exactly the bytes and the other header
      fields of one packet that this endpoint sent. */
  lemma IntegrityInEveryRun(es: seq<Event>, ms: set<Message>, o: Options, n: nat)
    requires NoReuse(ms) && (forall m :: m in ms ==> Sent(m))
    requires forall i :: 0 <= i < |es| ==> Legal(es[i], ms)
    requires n < |es|
    ensures DeliversSent(es[n], Apply(After(es[..n], o), es[n], o).1, ms)
  {
    GenuineAfter(es[..n], ms, o);
    assert Legal(es[n], ms);
    ApplyIsFaithful(After(es[..n], o), ms, es[n], o);
  }

  // ---------------------------------------------------------------- round trip

  /** Event `e` brings fragment `i` of `m`. */
  ghost predicate Brings(e: Event, m: Message, i: nat) {
    e.Deliver? && e.endpoint == m.endpoint && Carries(e.packet, m, i)
  }

  /** Event `e` is not about `m`: it neither belongs to its key nor times it out. */
  predicate Unrelated(e: Event, m: Message, o: Options) {
    match e
    case Deliver(endpoint, packet) => KeyOf(endpoint, packet, o.nMaxFragments) != Some(KeyOfMessage(m))
    case Timeout(key) => key != KeyOfMessage(m)
  }

  /** The fragments of `m` that the events bring. */
  ghost function Brought(es: seq<Event>, m: Message): (r: set<nat>) {
    set i: nat | i < |m.frags| && WasBrought(es, m, i)
  }

  ghost predicate WasBrought(es: seq<Event>, m: Message, i: nat) {
    exists j :: 0 <= j < |es| && Brings(es[j], m, i)
  }

  /** Each event brings a fragment of `m` or is unrelated to it. */
  ghost predicate Mixed(es: seq<Event>, m: Message, o: Options) {
    forall j :: 0 <= j < |es| ==> Unrelated(es[j], m, o) || exists i :: Brings(es[j], m, i)
  }

  function AfterFrom(parts: Partials, es: seq<Event>, o: Options): (r: Partials)
    requires WellFormed(parts)
    ensures WellFormed(r)
  {
    if es == [] then parts else Apply(AfterFrom(parts, es[..|es| - 1], o), es[|es| - 1], o).0
  }

  /** Exactly the slots in `got` are filled, with the fragments of `m`. */
  ghost predicate HoldsExactly(parts: Partials, m: Message, got: set<nat>) {
    if got == {} then KeyOfMessage(m) !in parts
    else
      && KeyOfMessage(m) in parts
      && HoldsPartOf(parts[KeyOfMessage(m)], m)
      && forall i :: 0 <= i < |m.frags| ==> (Filled(parts[KeyOfMessage(m)].fragments[i]) <==> i in got)
  }

  predicate IsIndex(m: Message, i: nat) {
    i < |m.frags|
  }

  ghost function AllOf(m: Message): (r: set<nat>) {
    set i: nat | i < |m.frags| && IsIndex(m, i)
  }

  lemma {:induction false} CountFilledIsFull(frags: seq<LpPacket>)
    requires forall i :: 0 <= i < |frags| ==> Filled(frags[i])
    ensures CountFilled(frags) == |frags|
  {
    if frags != [] {
      CountFilledIsFull(frags[..|frags| - 1]);
    }
  }

  /** Delivering a fragment of `m` fills its slot; the packet completes exactly if that was
      the last empty one. */
  lemma DeliverFragment(parts: Partials, m: Message, got: set<nat>, e: Event, i: nat, o: Options)
    requires WellFormed(parts) && Sent(m) && |m.frags| <= o.nMaxFragments
    requires HoldsExactly(parts, m, got) && got < AllOf(m) && Brings(e, m, i)
    ensures var r := Apply(parts, e, o);
            if got + {i} != AllOf(m) then r.1 == Incomplete && HoldsExactly(r.0, m, got + {i})
            else if o.isTlv(m.packet.fragment.value) then
              r.1.Complete? && r.1.netPkt == m.packet.fragment.value && Carries(r.1.firstFrag, m, 0)
              && KeyOfMessage(m) !in r.0
            else r.1 == Malformed
  {
    CarriesKey(e.packet, m, i, o.nMaxFragments);
    var key := KeyOfMessage(m);
    var pp := Lookup(parts, key, |m.frags|);
    if got == {} {
      FreshHoldsPart(m);
    }
    assert HoldsPartOf(pp, m);
    assert forall j :: 0 <= j < |m.frags| ==> (Filled(pp.fragments[j]) <==> j in got);
    if i in got {
      assert got + {i} == got;
    } else {
      var pp' := Store(pp, i, e.packet);
      StoreHoldsPart(pp, m, i, e.packet);
      if got + {i} == AllOf(m) {
        forall j | 0 <= j < |pp'.fragments|
          ensures Filled(pp'.fragments[j])
        {
          assert IsIndex(m, j);
          assert j in AllOf(m);
        }
        CountFilledIsFull(pp'.fragments);
        FullJoinsToPacket(pp', m);
      } else {
        NotFull(pp', m, got + {i});
      }
    }
  }

  lemma NotFull(pp: PartialPacket, m: Message, got: set<nat>)
    requires HoldsPartOf(pp, m) && got <= AllOf(m) && got != AllOf(m)
    requires forall j :: 0 <= j < |m.frags| ==> (Filled(pp.fragments[j]) <==> j in got)
    ensures pp.nReceivedFragments != pp.fragCount
  {
    var j :| j in AllOf(m) && j !in got;
    if CountFilled(pp.fragments) == |pp.fragments| {
      CountFilledFull(pp.fragments, j);
    }
  }

  lemma UnrelatedFrame(parts: Partials, m: Message, got: set<nat>, e: Event, o: Options)
    requires WellFormed(parts) && HoldsExactly(parts, m, got) && Unrelated(e, m, o)
    ensures HoldsExactly(Apply(parts, e, o).0, m, got)
  {
    if e.Deliver? && e.packet.fragment.Some? {
      ReceiveFrame(parts, e.endpoint, e.packet, o, KeyOfMessage(m));
    }
  }

  lemma BroughtStep(es: seq<Event>, m: Message, o: Options)
    requires es != [] && Sent(m)
    ensures var before, e := es[..|es| - 1], es[|es| - 1];
            && (forall i :: Brings(e, m, i) ==> Brought(es, m) == Brought(before, m) + {i})
            && ((forall i :: !Brings(e, m, i)) ==> Brought(es, m) == Brought(before, m))
  {
    var n := |es| - 1;
    var before, e := es[..n], es[n];
    forall i | i in Brought(es, m)
      ensures i in Brought(before, m) || Brings(e, m, i)
    {
      var j :| 0 <= j < |es| && Brings(es[j], m, i);
      if j < n {
        assert Brings(before[j], m, i);
      }
    }
    forall i | i in Brought(before, m)
      ensures i in Brought(es, m)
    {
      var j :| 0 <= j < n && Brings(before[j], m, i);
      assert Brings(es[j], m, i);
    }
    forall i | Brings(e, m, i)
      ensures Brought(es, m) == Brought(before, m) + {i}
    {
      forall x | Brings(e, m, x)
        ensures x == i
      {
        CarriesKey(e.packet, m, i, 0);
        CarriesKey(e.packet, m, x, 0);
      }
      assert Brings(es[n], m, i);
      assert i in Brought(es, m);
    }
  }

  lemma NothingBrought(parts: Partials, m: Message)
    requires KeyOfMessage(m) !in parts
    ensures HoldsExactly(parts, m, Brought([], m))
  {
    assert Brought([], m) == {};
  }

  /** While fragments of `m` are missing, its partial packet holds exactly those that arrived. */
  lemma {:induction false} CollectsWhatArrives(parts: Partials, es: seq<Event>, m: Message, o: Options)
    requires WellFormed(parts) && Sent(m) && |m.frags| <= o.nMaxFragments
    requires KeyOfMessage(m) !in parts && Mixed(es, m, o) && Brought(es, m) < AllOf(m)
    ensures HoldsExactly(AfterFrom(parts, es, o), m, Brought(es, m))
  {
    hide HoldsExactly, Apply, Unrelated, IsFragmentation;
    if es == [] {
      NothingBrought(parts, m);
    } else {
      var n := |es| - 1;
      var before, e := es[..n], es[n];
      BroughtStep(es, m, o);
      assert Mixed(before, m, o);
      assert Unrelated(es[n], m, o) || exists i :: Brings(es[n], m, i);
      if i :| Brings(e, m, i) {
        CollectsWhatArrives(parts, before, m, o);
        DeliverFragment(AfterFrom(parts, before, o), m, Brought(before, m), e, i, o);
      } else {
        CollectsWhatArrives(parts, before, m, o);
        UnrelatedFrame(AfterFrom(parts, before, o), m, Brought(before, m), e, o);
      }
    }
  }

  /** Round trip.  Starting without a partial packet for `m` and without a timeout of it, its
      fragments may arrive in any order, repeatedly, and mixed with any other traffic: nothing
      is completed while one is missing, and the arrival of the last missing one completes
      the packet with its original bytes and leaves no partial packet behind. */
  lemma RoundTrip(parts: Partials, es: seq<Event>, e: Event, m: Message, i: nat, o: Options)
    requires WellFormed(parts) && Sent(m) && |m.frags| <= o.nMaxFragments
    requires KeyOfMessage(m) !in parts && Mixed(es, m, o)
    requires Brought(es, m) < AllOf(m) && Brings(e, m, i)
    requires o.isTlv(m.packet.fragment.value)
    ensures var r := Apply(AfterFrom(parts, es, o), e, o);
            && (r.1.Complete? <==> Brought(es, m) + {i} == AllOf(m))
            && (r.1.Complete? ==>
                  && r.1.netPkt == m.packet.fragment.value
                  && Carries(r.1.firstFrag, m, 0)
                  && KeyOfMessage(m) !in r.0)
  {
    CollectsWhatArrives(parts, es, m, o);
    DeliverFragment(AfterFrom(parts, es, o), m, Brought(es, m), e, i, o);
  }

  // ---------------------------------------------------------------- what a sender emits

  /** What sendNetPacket passes to the transport for a fragmented packet are the fragments of
      one message based at the next Sequence. */
  lemma EmittedCarries(o: LinkServices.LinkOptions, last: Seq64, pkt: LpPacket, frags: seq<LpPacket>,
                       i: nat, p: LpPacket, endpoint: nat)
    requires IsFragmentation(pkt, frags) && i < |frags|
    requires LinkServices.Emitted(o, last, frags, i, p)
    ensures var m := Message(endpoint, Plus(last, 1), pkt, frags);
            Sent(m) && Carries(p, m, i)
  {
    var q :| LinkServices.Numbered(o, last, frags, i, q) && LinkServices.InTransit(q, p);
    var m := Message(endpoint, Plus(last, 1), pkt, frags);
    assert FragmentOf(m, i) == q;
  }
}
