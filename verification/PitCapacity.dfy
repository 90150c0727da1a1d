/** The forwarder's table and the store behind it: with insertions decided by the pool of ORAM
    blocks, the two hold the same keys and never run over. */
module PitCapacity {
  import opened Basics
  import opened PitEntries
  import opened Pipelines
  import opened ForwarderRuns
  import opened PitStores

  /** The Interest gets as far as the lookup in the PIT. */
  ghost predicate LooksUp(f: Fw, i: Interest, ingress: Face) {
    !Refused(i, ingress) && (i.key.name, i.nonce) !in f.deadNonces
  }

  /** An arriving Interest changes the keys of the forwarder's table as it changes those of the
      store. */
  lemma TableFollowsStore(c: Config, f: Fw, e: Event, r: Fw, wire: Wire)
    requires Step(c, f, e, r) && e.InterestIn? && (e.room <==> Room(|f.pit|, wire))
    ensures var k := e.interest.key;
      r.pit.Keys == if LooksUp(f, e.interest, e.ingress) && (k in f.pit || Room(|f.pit|, wire)) then f.pit.Keys + {k} else f.pit.Keys
  {
    hide Step;
    StepKeys(c, f, e, r);
  }

  /** Every decision on room in the run is the store's, for some Interests in wire format. */
  ghost predicate RoomIsDecidedByStore(states: seq<Fw>, events: seq<Event>, wires: seq<Wire>)
    requires |states| == |events| + 1 && |wires| == |events|
  {
    forall i :: 0 <= i < |events| ==> events[i].InterestIn? ==> (events[i].room <==> Room(|states[i].pit|, wires[i]))
  }

  lemma StepWithinCapacity(c: Config, f: Fw, e: Event, r: Fw, wire: Wire)
    requires Step(c, f, e, r) && |f.pit| <= ORAM_CAPACITY
    requires e.InterestIn? ==> (e.room <==> Room(|f.pit|, wire))
    ensures |r.pit| <= ORAM_CAPACITY
  {
    hide Step;
    StepKeys(c, f, e, r);
    var keys, added := f.pit.Keys, Added(f, e);
    assert |f.pit| == |keys| && |r.pit| == |r.pit.Keys|;
    Fewer(r.pit.Keys, keys + added);
    if added != {} {
      CardWithout(keys + added, e.interest.key);
      Fewer(keys + added - added, keys);
    } else {
      assert keys + added == keys;
    }
  }

  /** No reachable state has more entries than the ORAM has blocks. */
  lemma {:induction false} PitFitsStoreInEveryRun(c: Config, states: seq<Fw>, events: seq<Event>, wires: seq<Wire>, n: nat)
    requires IsRun(c, states, events) && |wires| == |events| && RoomIsDecidedByStore(states, events, wires) && n < |states|
    ensures |states[n].pit| <= ORAM_CAPACITY
  {
    hide Step, Room;
    if n == 0 {
      assert states[0].pit == map[];
    } else {
      PitFitsStoreInEveryRun(c, states, events, wires, n - 1);
      assert Step(c, states[n - 1], events[n - 1], states[n - 1 + 1]);
      StepWithinCapacity(c, states[n - 1], events[n - 1], states[n], wires[n - 1]);
    }
  }
}
