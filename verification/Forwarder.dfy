/** The forwarder object: its pipelines step by step, proved against the pipeline functions. */
module Forwarders {
  import opened Basics
  import opened PitEntries
  import opened Pipelines
  import Runs = ForwarderRuns

  lemma Take(all: set<Face>, todo: set<Face>, g: Face)
    requires g in all && g in todo
    ensures all - (todo - {g}) == (all - todo) + {g} && g !in all - todo
    ensures multiset(all - (todo - {g})) == multiset(all - todo) + multiset{g}
  {
    assert all - (todo - {g}) == (all - todo) + {g};
  }

  lemma ReachableNone(name: Name)
    ensures Reachable({}, name) == {}
  {
  }

  lemma ReachableStep(faces: set<Face>, g: Face, name: Name)
    requires g !in faces
    ensures multiset(Reachable(faces + {g}, name))
         == multiset(Reachable(faces, name)) + if CanSendData(name, g) then multiset{g} else multiset{}
  {
    assert Reachable(faces + {g}, name) == Reachable(faces, name) + if CanSendData(name, g) then {g} else {};
  }

  /** Only an entry that was already there can show a loop. */
  lemma InsertedIsNoLoop(f: Fw, k: Key, nonce: Nonce, ingress: Face)
    ensures IsLoop(Insert(f, k).pit[k], nonce, ingress) ==> k in f.pit && Insert(f, k) == f
    ensures k in f.pit ==> Insert(f, k) == f
  {
  }

  lemma ClearEntriesStep(c: Config, f: Fw, keys: seq<Key>, i: nat, ingress: Face, freshness: nat, now: int)
    requires i < |keys| && forall k :: k in keys ==> k in f.pit
    ensures ClearEntries(c, f, keys[i..], ingress, freshness, now)
         == ClearEntries(c, ClearEntry(c, f, keys[i], ingress, freshness, now), keys[i + 1..], ingress, freshness, now)
  {
    assert keys[i..][1..] == keys[i + 1..];
  }

  lemma ClearNone(c: Config, f: Fw, g: Fw, ingress: Face, freshness: nat, now: int)
    ensures ClearEntries(c, f, [], ingress, freshness, now) == f && AllWaiting(g, [], now) == {}
  {
  }

  lemma AllWaitingStep(f: Fw, keys: seq<Key>, i: nat, now: int)
    requires i < |keys| && forall k :: k in keys ==> k in f.pit
    ensures AllWaiting(f, keys[i..], now) == Waiting(f.pit[keys[i]], now) + AllWaiting(f, keys[i + 1..], now)
  {
    assert keys[i..][1..] == keys[i + 1..];
  }

  lemma NackableNone()
    ensures Nackable({}) == {}
  {
  }

  lemma NackableStep(faces: set<Face>, g: Face)
    requires g !in faces
    ensures g !in Nackable(faces)
    ensures Nackable(faces + {g}) == if TakesNack(g) then Nackable(faces) + {g} else Nackable(faces)
    ensures TakesNack(g) ==> multiset(Nackable(faces + {g})) == multiset(Nackable(faces)) + multiset{g}
  {
    assert Nackable(faces + {g}) == if TakesNack(g) then Nackable(faces) + {g} else Nackable(faces);
  }

  class Forwarder {
    const config: Config
    var pit: map<Key, Entry>
    var deadNonces: set<(Name, Nonce)>
    var nCreated: nat
    var nSatisfied: nat
    var nUnsatisfied: nat
    ghost var finalized: set<nat>
    var received: multiset<Face>
    var sentData: multiset<Face>
    var sentNacks: multiset<Face>
    var sentInterests: multiset<Sent>

    ghost function State(): (f: Fw)
      reads this
    {
      Fw(pit, deadNonces, nCreated, nSatisfied, nUnsatisfied, finalized, received, sentData, sentNacks, sentInterests)
    }

    constructor (config: Config)
      ensures this.config == config && State() == START
    {
      this.config := config;
      pit, deadNonces := map[], {};
      nCreated, nSatisfied, nUnsatisfied, finalized := 0, 0, 0, {};
      received, sentData, sentNacks, sentInterests := multiset{}, multiset{}, multiset{}, multiset{};
    }

    // -------------------------------------------------------------- outgoing pipelines

    method SetEntryTimer(k: Key, now: int, duration: int)
      requires k in pit
      modifies this`pit
      ensures pit == old(pit)[k := SetTimer(old(pit[k]), now, duration)]
    {
      pit := pit[k := pit[k].(timer := Some(now + if duration > 0 then duration else 0))];
    }

    method OnOutgoingInterest(k: Key, face: Face, nonce: Nonce, lifetime: nat, hopLimit: Option<nat>, now: int)
      requires k in pit
      modifies this`pit, this`sentInterests
      ensures k in pit && State() == OutgoingInterest(old(State()), k, face, nonce, lifetime, hopLimit, now)
    {
      if hopLimit == Some(0) && !face.local {
        return;
      }
      pit := pit[k := UpdateOutRecord(pit[k], face, nonce, lifetime, now)];
      sentInterests := sentInterests + multiset{Sent(face, k.name, nonce, hopLimit)};
    }

    method OnOutgoingData(name: Name, face: Face) returns (sent: bool)
      modifies this`sentData
      ensures sent == CanSendData(name, face)
      ensures sentData == if sent then old(sentData) + multiset{face} else old(sentData)
    {
      if face.id == 0 {
        return false;
      }
      if !face.local && IsLocalhost(name) {
        return false;
      }
      sentData := sentData + multiset{face};
      return true;
    }

    method OnOutgoingNack(k: Key, face: Face) returns (sent: bool)
      requires k in pit
      modifies this`pit, this`sentNacks
      ensures sent == CanSendNack(old(pit[k]), face)
      ensures pit == if sent then old(pit)[k := DeleteInRecord(old(pit[k]), face)] else old(pit)
      ensures sentNacks == if sent then old(sentNacks) + multiset{face} else old(sentNacks)
    {
      if face.id == 0 {
        return false;
      }
      if face !in pit[k].inRecords {
        return false;
      }
      if face.link != PointToPoint {
        return false;
      }
      pit := pit[k := DeleteInRecord(pit[k], face)];
      sentNacks := sentNacks + multiset{face};
      return true;
    }

    // -------------------------------------------------------------- strategy actions

    method RunAction(k: Key, a: Action, now: int)
      requires k in pit
      modifies this`pit, this`sentData, this`sentNacks, this`sentInterests
      ensures k in pit && State() == Act(old(State()), k, a, now)
    {
      hide OutgoingInterest, SendDataToAll, SetTimer, DeleteInRecord, CanSendNack;
      match a {
        case SendInterest(face, nonce, lifetime, hopLimit) =>
          OnOutgoingInterest(k, face, nonce, lifetime, hopLimit, now);
        case SendNack(face) =>
          var _ := OnOutgoingNack(k, face);
        case SetExpiryTimer(duration) =>
          SetEntryTimer(k, now, duration);
        case ReturnData(name, ingress) =>
          SendToAll(k, name, ingress, now);
      }
    }

    method RunActions(k: Key, actions: seq<Action>, now: int)
      requires k in pit
      modifies this`pit, this`sentData, this`sentNacks, this`sentInterests
      ensures State() == ActAll(old(State()), k, actions, now)
    {
      hide Act;
      ghost var f := State();
      for i := 0 to |actions|
        invariant k in pit
        invariant ActAll(State(), k, actions[i..], now) == ActAll(f, k, actions, now)
      {
        assert actions[i..][0] == actions[i] && actions[i..][1..] == actions[i + 1..];
        RunAction(k, actions[i], now);
      }
    }

    method SendDataTo(k: Key, name: Name, face: Face)
      requires k in pit
      modifies this`pit, this`sentData
      ensures pit == old(pit)[k := DeleteInRecord(old(pit[k]), face)]
      ensures sentData == if CanSendData(name, face) then old(sentData) + multiset{face} else old(sentData)
    {
      if face in pit[k].inRecords {
        pit := pit[k := DeleteInRecord(pit[k], face)];
      } else {
        assert DeleteInRecord(pit[k], face) == pit[k];
        assert pit[k := pit[k]] == pit;
      }
      var _ := OnOutgoingData(name, face);
    }

    method FindDownstreams(k: Key, ingress: Face, now: int) returns (faces: set<Face>)
      requires k in pit
      ensures faces == Downstreams(pit[k], ingress, now)
    {
      faces := {};
      var todo := pit[k].inRecords.Keys;
      while todo != {}
        invariant todo <= pit[k].inRecords.Keys
        invariant faces == Downstreams(pit[k], ingress, now) - todo
      {
        var g :| g in todo;
        todo := todo - {g};
        if pit[k].inRecords[g].expiry > now {
          if g.id == ingress.id && g.link != AdHoc {
          } else {
            faces := faces + {g};
          }
        }
      }
    }

    method SendToAll(k: Key, name: Name, ingress: Face, now: int)
      requires k in pit
      modifies this`pit, this`sentData
      ensures k in pit && State() == SendDataToAll(old(State()), k, name, ingress, now)
    {
      hide Stripped, Reachable, DeleteInRecord;
      var faces := FindDownstreams(k, ingress, now);
      ghost var f := State();
      var todo := faces;
      StrippedNone(f.pit, k);
      assert faces - todo == {} && multiset(Reachable({}, name)) == multiset{} by { ReachableNone(name); }
      while todo != {}
        invariant todo <= faces && k in pit
        invariant pit == Stripped(f.pit, k, faces - todo)
        invariant sentData == f.sentData + multiset(Reachable(faces - todo, name))
      {
        var g :| g in todo;
        Take(faces, todo, g);
        ReachableStep(faces - todo, g, name);
        StrippedStep(f.pit, k, faces - todo, g);
        SendDataTo(k, name, g);
        todo := todo - {g};
      }
      assert faces - todo == faces;
    }

    method SendNacksTo(k: Key, except: set<Face>)
      requires k in pit
      modifies this`pit, this`sentNacks
      ensures State() == SendNacks(old(State()), k, except)
    {
      hide Stripped, Nackable;
      NackEach(k, pit[k].inRecords.Keys - except);
    }

    method NackEach(k: Key, faces: set<Face>)
      requires k in pit && faces <= pit[k].inRecords.Keys
      modifies this`pit, this`sentNacks
      ensures pit == Stripped(old(pit), k, Nackable(faces))
      ensures sentNacks == old(sentNacks) + multiset(Nackable(faces))
    {
      hide Stripped, DeleteInRecord, Nackable, TakesNack;
      ghost var was := pit;
      var todo := faces;
      StrippedNone(was, k);
      assert faces - todo == {} && Nackable({}) == {} by { NackableNone(); }
      while todo != {}
        invariant todo <= faces && k in pit
        invariant pit == Stripped(was, k, Nackable(faces - todo))
        invariant sentNacks == old(sentNacks) + multiset(Nackable(faces - todo))
      {
        var g :| g in todo;
        Take(faces, todo, g);
        NackableStep(faces - todo, g);
        StrippedStep(was, k, Nackable(faces - todo), g);
        var _ := OnOutgoingNack(k, g);
        todo := todo - {g};
      }
      assert faces - todo == faces;
    }

    // -------------------------------------------------------------- Dead Nonce List

    method InsertDeadNonceList(k: Key, upstream: Option<Face>)
      requires k in pit
      modifies this`deadNonces
      ensures deadNonces == old(deadNonces) +
        if !NeedsDeadNonces(config, k, pit[k]) then {}
        else match upstream case None => OutNonces(k, pit[k]) case Some(face) => OutNonceOf(k, pit[k], face)
    {
      var needed := true;
      if pit[k].satisfied {
        needed := k.mustBeFresh && pit[k].freshness < config.deadNonceLifetime;
      }
      if !needed {
        return;
      }
      match upstream {
        case None =>
          var todo := pit[k].outRecords.Keys;
          while todo != {}
            invariant todo <= pit[k].outRecords.Keys
            invariant deadNonces == old(deadNonces)
              + set g | g in pit[k].outRecords && g !in todo :: (k.name, pit[k].outRecords[g].nonce)
          {
            var g :| g in todo;
            todo := todo - {g};
            deadNonces := deadNonces + {(k.name, pit[k].outRecords[g].nonce)};
          }
        case Some(face) =>
          if face in pit[k].outRecords {
            deadNonces := deadNonces + {(k.name, pit[k].outRecords[face].nonce)};
          }
      }
    }

    method OnInterestFinalize(k: Key)
      requires k in pit
      modifies this`pit, this`deadNonces, this`nSatisfied, this`nUnsatisfied, this`finalized
      ensures State() == Finalize(config, old(State()), k)
    {
      InsertDeadNonceList(k, None);
      if pit[k].satisfied {
        nSatisfied := nSatisfied + 1;
      } else {
        nUnsatisfied := nUnsatisfied + 1;
      }
      finalized := finalized + {pit[k].id};
      pit := pit - {k};
    }

    // -------------------------------------------------------------- incoming Interest

    method OnInterestLoop(ingress: Face, answer: bool)
      modifies this`sentNacks
      ensures State() == InterestLoop(old(State()), ingress, answer)
    {
      if ingress.link != PointToPoint {
        return;
      }
      if answer {
        sentNacks := sentNacks + multiset{ingress};
      }
    }

    method OnContentStoreHit(k: Key, ingress: Face, data: Data, now: int)
      requires k in pit
      modifies this`pit, this`sentData
      ensures State() == ContentStoreHit(old(State()), k, ingress, data, now)
    {
      hide DeleteInRecord, SetTimer, CanSendData;
      ghost var was := pit;
      pit := pit[k := Satisfy(pit[k], data.freshness)];
      SetEntryTimer(k, now, 0);
      assert pit == was[k := SetTimer(Satisfy(was[k], data.freshness), now, 0)];
      SendDataTo(k, data.name, ingress);
    }

    method OnContentStoreMiss(i: Interest, ingress: Face, actions: seq<Action>, now: int)
      requires i.key in pit
      modifies this`pit, this`sentData, this`sentNacks, this`sentInterests
      ensures ContentStoreMiss(config, old(State()), i, ingress, actions, now, State())
    {
      hide ActAll, OutgoingInterest, IsLastExpiry;
      ghost var f := State();
      var k := i.key;
      var hopLimit := i.hopLimit;
      if config.defaultHopLimit > 0 && hopLimit.None? {
        hopLimit := Some(config.defaultHopLimit);
      }
      pit := pit[k := UpdateInRecord(pit[k], ingress, i.nonce, i.lifetime, now)];
      assert ingress in pit[k].inRecords;
      var last := LastExpiry(pit[k].inRecords);
      SetEntryTimer(k, now, last - now);
      assert State() == Pend(f, i, ingress, last, now);
      match i.nextHop {
        case Via(face) =>
          OnOutgoingInterest(k, face, i.nonce, i.lifetime, hopLimit, now);
        case NoSuchFace =>
        case NoTag =>
          RunActions(k, actions, now);
      }
    }

    /** `room`: a block is free for a new entry.  `answer`: the strategy answers loops.
        `hit`: what the Content Store would find. */
    method OnIncomingInterest(interest: Interest, ingress: Face, room: bool, answer: bool, hit: Option<Data>,
                              actions: seq<Action>, now: int)
      modifies this`pit, this`nCreated, this`received, this`sentData, this`sentNacks, this`sentInterests
      ensures IncomingInterest(config, old(State()), interest, ingress, room, answer, hit, actions, now, State())
    {
      hide ContentStoreMiss, ContentStoreHit, InterestLoop, IsLoop, Insert;
      ghost var f := State();
      received := received + multiset{ingress};
      var i := interest;
      if i.hopLimit.Some? {
        if i.hopLimit.value == 0 {
          return;
        }
        i := i.(hopLimit := Some(i.hopLimit.value - 1));
      }
      if !ingress.local && IsLocalhost(i.key.name) {
        return;
      }
      if (i.key.name, i.nonce) in deadNonces {
        OnInterestLoop(ingress, answer);
        return;
      }
      ghost var n := State();
      assert n == CountReceived(f, ingress);
      var found := FindOrInsert(i.key, room);
      if !found {
        return;
      }
      var duplicate := IsDuplicate(i.key, i.nonce, ingress);
      assert duplicate <==> Loops(f, interest, ingress) by { InsertedIsNoLoop(n, i.key, i.nonce, ingress); }
      if duplicate {
        assert State() == n by { InsertedIsNoLoop(n, i.key, i.nonce, ingress); }
        OnInterestLoop(ingress, answer);
        return;
      }
      if pit[i.key].inRecords == map[] && hit.Some? {
        OnContentStoreHit(i.key, ingress, hit.value, now);
      } else {
        OnContentStoreMiss(i, ingress, actions, now);
      }
    }

    /** The PIT entry, new if there was none and a block is free. */
    method FindOrInsert(k: Key, room: bool) returns (found: bool)
      modifies this`pit, this`nCreated
      ensures found == (k in old(pit) || room)
      ensures State() == if found then Insert(old(State()), k) else old(State())
    {
      if k in pit {
        return true;
      }
      if !room {
        return false;
      }
      pit := pit[k := NewEntry(nCreated)];
      nCreated := nCreated + 1;
      return true;
    }

    /** The duplicate Nonce test, with its exception for point-to-point faces. */
    method IsDuplicate(k: Key, nonce: Nonce, ingress: Face) returns (b: bool)
      requires k in pit
      ensures b <==> IsLoop(pit[k], nonce, ingress)
    {
      var d := FindDuplicateNonce(pit[k], nonce, ingress);
      b := Any(d);
      if ingress.link == PointToPoint {
        b := b && !d.inSame;
      }
    }

    // -------------------------------------------------------------- incoming Data

    method SatisfyEntry(k: Key, ingress: Face, freshness: nat)
      requires k in pit
      modifies this`pit, this`deadNonces
      ensures State() == SatisfyFrom(config, old(State()), k, ingress, freshness)
    {
      pit := pit[k := Satisfy(pit[k], freshness)];
      InsertDeadNonceList(k, Some(ingress));
      pit := pit[k := DeleteOutRecord(pit[k], ingress)];
    }

    /** `actions` are what the strategy does in afterReceiveData. */
    method SatisfyOne(k: Key, ingress: Face, data: Data, actions: seq<Action>, now: int)
      requires k in pit
      modifies this`pit, this`deadNonces, this`sentData, this`sentNacks, this`sentInterests
      ensures State() == SingleMatch(config, old(State()), k, ingress, data, actions, now)
    {
      hide ActAll, SatisfyFrom;
      SetEntryTimer(k, now, 0);
      RunActions(k, actions, now);
      SatisfyEntry(k, ingress, data.freshness);
    }

    method ClearOne(k: Key, ingress: Face, freshness: nat, now: int)
      requires k in pit
      modifies this`pit, this`deadNonces
      ensures State() == ClearEntry(config, old(State()), k, ingress, freshness, now)
    {
      SetEntryTimer(k, now, 0);
      SatisfyEntry(k, ingress, freshness);
      pit := pit[k := pit[k].(inRecords := map[])];
    }

    /** Remember who waits in each entry, then clear it. */
    method CollectAndClear(keys: seq<Key>, ingress: Face, freshness: nat, now: int) returns (waiting: set<Face>)
      requires NoDup(keys) && forall k :: k in keys ==> k in pit
      modifies this`pit, this`deadNonces
      ensures State() == ClearEntries(config, old(State()), keys, ingress, freshness, now)
      ensures waiting == AllWaiting(old(State()), keys, now)
    {
      hide ClearEntry, Waiting, ClearEntries, AllWaiting;
      ghost var f := State();
      waiting := {};
      assert keys[0..] == keys;
      for i := 0 to |keys|
        invariant forall k :: k in keys ==> k in pit
        invariant ClearEntries(config, State(), keys[i..], ingress, freshness, now)
               == ClearEntries(config, f, keys, ingress, freshness, now)
        invariant forall j :: i <= j < |keys| ==> pit[keys[j]] == f.pit[keys[j]]
        invariant waiting + AllWaiting(f, keys[i..], now) == AllWaiting(f, keys, now)
      {
        var k := keys[i];
        ClearEntriesStep(config, State(), keys, i, ingress, freshness, now);
        AllWaitingStep(f, keys, i, now);
        var faces := FindWaiting(k, now);
        waiting := waiting + faces;
        Runs.ClearEntryOwes(config, State(), k, ingress, freshness, now, ingress);
        ClearOne(k, ingress, freshness, now);
      }
      ClearNone(config, State(), f, ingress, freshness, now);
      assert keys[|keys|..] == [];
    }

    method FindWaiting(k: Key, now: int) returns (faces: set<Face>)
      requires k in pit
      ensures faces == Waiting(pit[k], now)
    {
      faces := {};
      var todo := pit[k].inRecords.Keys;
      while todo != {}
        invariant todo <= pit[k].inRecords.Keys
        invariant faces == Waiting(pit[k], now) - todo
      {
        var g :| g in todo;
        todo := todo - {g};
        if pit[k].inRecords[g].expiry > now {
          faces := faces + {g};
        }
      }
    }

    method SendToWaiting(waiting: set<Face>, ingress: Face, name: Name)
      modifies this`sentData
      ensures sentData == old(sentData) + multiset(Reachable(ReturnTo(waiting, ingress), name))
    {
      hide Reachable;
      var todo := waiting;
      assert ReturnTo(waiting - todo, ingress) == {} && Reachable({}, name) == {} by { ReachableNone(name); }
      while todo != {}
        invariant todo <= waiting
        invariant sentData == old(sentData) + multiset(Reachable(ReturnTo(waiting - todo, ingress), name))
      {
        var g :| g in todo;
        ghost var done := ReturnTo(waiting - todo, ingress);
        todo := todo - {g};
        if g.id == ingress.id && g.link != AdHoc {
          assert ReturnTo(waiting - todo, ingress) == done;
        } else {
          assert ReturnTo(waiting - todo, ingress) == done + {g};
          ReachableStep(done, g, name);
          var _ := OnOutgoingData(name, g);
        }
      }
      assert waiting - todo == waiting;
    }

    /** `keys` is the PIT match result and `actions` what the strategy does if there is one match. */
    method OnIncomingData(data: Data, ingress: Face, keys: seq<Key>, actions: seq<Action>, now: int)
      requires IsMatchResult(State(), data, keys)
      modifies this`pit, this`deadNonces, this`sentData, this`sentNacks, this`sentInterests
      ensures State() == IncomingData(config, old(State()), data, ingress, keys, actions, now)
    {
      hide SingleMatch, ClearEntries, AllWaiting;
      if !ingress.local && IsLocalhost(data.name) {
        return;
      }
      if |keys| == 0 {
        return;
      }
      assert keys[0] in keys;
      if |keys| == 1 {
        SatisfyOne(keys[0], ingress, data, actions, now);
      } else {
        var waiting := CollectAndClear(keys, ingress, data.freshness, now);
        ghost var cleared := State();
        assert cleared.sentData == old(sentData);
        SendToWaiting(waiting, ingress, data.name);
      }
    }

    // -------------------------------------------------------------- incoming Nack

    method OnIncomingNack(k: Key, nonce: Nonce, ingress: Face, actions: seq<Action>, now: int)
      modifies this`pit, this`sentData, this`sentNacks, this`sentInterests
      ensures State() == IncomingNack(old(State()), k, nonce, ingress, actions, now)
    {
      hide ActAll, HasPendingOut;
      if ingress.link != PointToPoint {
        return;
      }
      if k !in pit {
        return;
      }
      if ingress !in pit[k].outRecords {
        return;
      }
      if nonce != pit[k].outRecords[ingress].nonce {
        return;
      }
      ghost var was := pit;
      pit := pit[k := RecordNack(pit[k], ingress)];
      var pending := HasPendingOutRecords(pit[k], now);
      if !pending {
        SetEntryTimer(k, now, 0);
        assert pit == was[k := SetTimer(RecordNack(was[k], ingress), now, 0)];
      }
      RunActions(k, actions, now);
    }

    /** The face table is about to drop a face: no record may keep naming it. */
    method CleanupOnFaceRemoval(face: Face)
      modifies this`pit
      ensures State() == RemoveFace(old(State()), face)
    {
      ghost var was := pit;
      var todo := pit.Keys;
      while todo != {}
        invariant pit.Keys == was.Keys && todo <= was.Keys
        invariant forall k :: k in was ==>
          pit[k] == if k in todo then was[k] else DeleteOutRecord(DeleteInRecord(was[k], face), face)
      {
        var k :| k in todo;
        todo := todo - {k};
        pit := pit[k := DeleteOutRecord(DeleteInRecord(pit[k], face), face)];
      }
      assert pit == map k | k in was :: DeleteOutRecord(DeleteInRecord(was[k], face), face);
    }
  }
}
