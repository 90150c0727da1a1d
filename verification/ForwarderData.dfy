/** What an incoming Data does to the matched entries and their downstreams, however many
    entries it matches, when the strategy handles it as the base class does. */
module ForwarderData {
  import opened Basics
  import opened PitEntries
  import opened Pipelines
  import opened ForwarderRules

  /** The face waits for this Data in some entry and may be given it. */
  ghost predicate Wants(f: Fw, data: Data, ingress: Face, now: int, g: Face) {
    && MayCarry(data.name, g)
    && exists k :: k in f.pit && IsAnswer(k, data) && AwaitsFrom(f.pit[k], ingress, now, g)
  }

  lemma OneAction(f: Fw, k: Key, data: Data, ingress: Face, now: int)
    requires k in f.pit
    ensures ActAll(f, k, BaseReturn(data, ingress), now) == SendDataToAll(f, k, data.name, ingress, now)
  {
    assert BaseReturn(data, ingress)[1..] == [];
  }

  lemma {:induction false} AllWaitingIff(f: Fw, keys: seq<Key>, now: int, g: Face)
    requires forall k :: k in keys ==> k in f.pit
    ensures g in AllWaiting(f, keys, now) <==> exists k :: k in keys && g in Waiting(f.pit[k], now)
  {
    if keys != [] {
      AllWaitingIff(f, keys[1..], now, g);
      if g in AllWaiting(f, keys[1..], now) {
        var k :| k in keys[1..] && g in Waiting(f.pit[k], now);
        assert k in keys;
      }
      if k :| k in keys && g in Waiting(f.pit[k], now) {
        assert k == keys[0] || k in keys[1..];
      }
    }
  }

  lemma {:induction false} ClearingSendsNothing(c: Config, f: Fw, keys: seq<Key>, ingress: Face, freshness: nat, now: int)
    requires forall k :: k in keys ==> k in f.pit
    ensures ClearEntries(c, f, keys, ingress, freshness, now).sentData == f.sentData
    decreases |keys|
  {
    if keys != [] {
      ClearingSendsNothing(c, ClearEntry(c, f, keys[0], ingress, freshness, now), keys[1..], ingress, freshness, now);
    }
  }

  /** Each downstream still waiting for the Data in any entry gets exactly one copy, and no
      other face gets one. */
  lemma DataGoesToWhoWaits(c: Config, f: Fw, data: Data, ingress: Face, keys: seq<Key>, now: int, g: Face)
    requires IsMatchResult(f, data, keys) && (ingress.local || !UnderLocalhost(data.name))
    ensures IncomingData(c, f, data, ingress, keys, BaseReturn(data, ingress), now).sentData[g]
         == f.sentData[g] + if Wants(f, data, ingress, now, g) then 1 else 0
  {
    AllWaitingIff(f, keys, now, g);
    hide AllWaiting, ClearEntries, Waiting;
    if keys == [] {
      assert !Wants(f, data, ingress, now, g);
    } else if |keys| == 1 {
      assert keys[0] in keys;
      OneAction(WithEntry(f, keys[0], SetTimer(f.pit[keys[0]], now, 0)), keys[0], data, ingress, now);
      var faces := Reachable(Downstreams(f.pit[keys[0]], ingress, now), data.name);
      assert g in faces <==> Wants(f, data, ingress, now, g) by {
        WantsIff(f, data, ingress, keys, now, g);
        assert forall k :: k in keys ==> k == keys[0];
      }
    } else {
      ClearingSendsNothing(c, f, keys, ingress, data.freshness, now);
      var faces := Reachable(ReturnTo(AllWaiting(f, keys, now), ingress), data.name);
      assert g in faces <==> Wants(f, data, ingress, now, g) by { WantsIff(f, data, ingress, keys, now, g); }
    }
  }

  /** Who wants the Data, by the tests of the pipeline. */
  lemma WantsIff(f: Fw, data: Data, ingress: Face, keys: seq<Key>, now: int, g: Face)
    requires IsMatchResult(f, data, keys)
    ensures Wants(f, data, ingress, now, g) <==>
      MayReturnTo(ingress, g) && CanSendData(data.name, g) && exists k :: k in keys && g in Waiting(f.pit[k], now)
  {
    forall k
      ensures Matches(k, data) <==> IsAnswer(k, data)
    {
      MatchesIffAnswer(k, data);
    }
  }

  /** The entry is done: satisfied, about to be finalized, and without the upstream's record. */
  ghost predicate Done(e: Entry, ingress: Face, freshness: nat, now: int) {
    e.satisfied && e.freshness == freshness && e.timer == Some(now) && ingress !in e.outRecords
  }

  lemma {:induction false} ClearingLeaves(c: Config, f: Fw, keys: seq<Key>, ingress: Face, freshness: nat, now: int, k: Key)
    requires (forall j :: j in keys ==> j in f.pit) && k in f.pit
    ensures var r := ClearEntries(c, f, keys, ingress, freshness, now);
      && (k in keys || (Done(f.pit[k], ingress, freshness, now) && f.pit[k].inRecords == map[]) ==>
            Done(r.pit[k], ingress, freshness, now) && r.pit[k].inRecords == map[])
      && (k !in keys ==> r.pit[k] == f.pit[k])
    decreases |keys|
  {
    if keys != [] {
      var g := ClearEntry(c, f, keys[0], ingress, freshness, now);
      assert k == keys[0] ==> Done(g.pit[k], ingress, freshness, now) && g.pit[k].inRecords == map[];
      assert k != keys[0] ==> g.pit[k] == f.pit[k];
      hide ClearEntry;
      ClearingLeaves(c, g, keys[1..], ingress, freshness, now, k);
    }
  }

  lemma MatchedAreDone(c: Config, f: Fw, data: Data, ingress: Face, keys: seq<Key>, now: int, k: Key)
    requires IsMatchResult(f, data, keys) && (ingress.local || !IsLocalhost(data.name)) && k in f.pit
    ensures var r := IncomingData(c, f, data, ingress, keys, BaseReturn(data, ingress), now);
      && r.pit.Keys == f.pit.Keys
      && (Matches(k, data) ==>
            && Done(r.pit[k], ingress, data.freshness, now)
            && forall g :: g in Waiting(r.pit[k], now) ==> !MayReturnTo(ingress, g))
      && (!Matches(k, data) ==> r.pit[k] == f.pit[k])
  {
    hide ClearEntries, AllWaiting, ActAll, NeedsDeadNonces, OutNonceOf;
    if keys == [] {
    } else if |keys| == 1 {
      assert keys[0] in keys;
      OneAction(WithEntry(f, keys[0], SetTimer(f.pit[keys[0]], now, 0)), keys[0], data, ingress, now);
      assert forall j :: j in keys ==> j == keys[0];
    } else {
      ClearingLeaves(c, f, keys, ingress, data.freshness, now, k);
    }
  }

  /** Every matched entry is done and owes no unexpired downstream but the ingress; the other
      entries are untouched. */
  lemma MatchedEntriesAreDone(c: Config, f: Fw, data: Data, ingress: Face, keys: seq<Key>, now: int, k: Key)
    requires IsMatchResult(f, data, keys) && (ingress.local || !UnderLocalhost(data.name)) && k in f.pit
    ensures var r := IncomingData(c, f, data, ingress, keys, BaseReturn(data, ingress), now);
      && r.pit.Keys == f.pit.Keys
      && (IsAnswer(k, data) ==>
            && Done(r.pit[k], ingress, data.freshness, now)
            && forall g :: g in r.pit[k].inRecords ==> !AwaitsFrom(r.pit[k], ingress, now, g))
      && (!IsAnswer(k, data) ==> r.pit[k] == f.pit[k])
  {
    MatchesIffAnswer(k, data);
    MatchedAreDone(c, f, data, ingress, keys, now, k);
    hide IncomingData, IsAnswer, Matches, Done, IsMatchResult;
    var e := IncomingData(c, f, data, ingress, keys, BaseReturn(data, ingress), now).pit[k];
    assert forall g :: AwaitsFrom(e, ingress, now, g) ==> g in Waiting(e, now) && MayReturnTo(ingress, g);
  }
}
