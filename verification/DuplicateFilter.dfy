/** The memory of recently received Sequences (LpReliability::processIncomingPacket).

    Times are steady-clock readings since the epoch; the RTO is an arbitrary input. */
module DuplicateFilter {
  import opened Basics
  import opened Division

  /** m_recentRecvSeqs and m_recentRecvSeqsQueue. */
  datatype Filter = Filter(times: map<Seq64, nat>, queue: seq<Seq64>)

  const EMPTY: Filter := Filter(map[], [])

  /** operator[] of the map: a missing key is inserted with the epoch as its time. */
  function Touch(times: map<Seq64, nat>, k: Seq64): (r: map<Seq64, nat>)
    ensures k in r
  {
    if k in times then times else times[k := 0]
  }

  /** The loop that forgets Sequences older than the RTO. */
  function Prune(f: Filter, now: nat, rto: nat): (r: Filter)
    decreases |f.queue|
  {
    if f.queue == [] then f
    else
      var front := f.queue[0];
      var times := Touch(f.times, front);
      if now > times[front] + rto then Prune(Filter(times - {front}, f.queue[1..]), now, rto)
      else Filter(times, f.queue)
  }

  function Remember(f: Filter, s: Seq64, now: nat): (r: Filter) {
    Filter(if s in f.times then f.times else f.times[s := now], f.queue + [s])
  }

  predicate IsDuplicate(f: Filter, s: Seq64) {
    s in f.times
  }

  function Receive(f: Filter, s: Seq64, now: nat, rto: nat): (r: Filter) {
    Remember(Prune(f, now, rto), s, now)
  }

  /** The filter part of processIncomingPacket. */
  method CheckDuplicate(f: Filter, s: Seq64, now: nat, rto: nat) returns (isDuplicate: bool, r: Filter)
    ensures isDuplicate == IsDuplicate(f, s)
    ensures r == Receive(f, s, now, rto)
  {
    isDuplicate := s in f.times;
    var times: map<Seq64, nat> := f.times;
    var queue: seq<Seq64> := f.queue;
    while queue != []
      invariant Prune(Filter(times, queue), now, rto) == Prune(f, now, rto)
      decreases |queue|
    {
      times := Touch(times, queue[0]);
      if now <= times[queue[0]] + rto {
        break;
      }
      times := times - {queue[0]};
      queue := queue[1..];
    }
    if s !in times {
      times := times[s := now];
    }
    queue := queue + [s];
    r := Filter(times, queue);
  }

  // ---------------------------------------------------------------- one arrival

  /** Every remembered Sequence has a place in the expiry queue. */
  ghost predicate NoLeak(f: Filter) {
    forall k :: k in f.times ==> k in f.queue
  }

  lemma {:induction false} PruneKeepsNoLeak(f: Filter, now: nat, rto: nat)
    requires NoLeak(f)
    ensures NoLeak(Prune(f, now, rto))
    decreases |f.queue|
  {
    if f.queue != [] {
      var front := f.queue[0];
      var times := Touch(f.times, front);
      if now > times[front] + rto {
        var g := Filter(times - {front}, f.queue[1..]);
        forall k | k in g.times
          ensures k in g.queue
        {
          assert k in f.queue && k != front;
        }
        PruneKeepsNoLeak(g, now, rto);
      }
    }
  }

  /** Pruning forgets no Sequence recorded within the last RTO and redates none. */
  lemma {:induction false} PruneKeepsRecent(f: Filter, now: nat, rto: nat, s: Seq64)
    requires s in f.times && now <= f.times[s] + rto
    ensures s in Prune(f, now, rto).times && Prune(f, now, rto).times[s] == f.times[s]
    decreases |f.queue|
  {
    if f.queue != [] {
      var front := f.queue[0];
      var times := Touch(f.times, front);
      if now > times[front] + rto {
        assert front != s;
        PruneKeepsRecent(Filter(times - {front}, f.queue[1..]), now, rto, s);
      }
    }
  }

  lemma {:induction false} PruneInventsNothing(f: Filter, now: nat, rto: nat, s: Seq64)
    requires NoLeak(f) && s in Prune(f, now, rto).queue
    ensures s in f.queue
    decreases |f.queue|
  {
    if f.queue != [] {
      var front := f.queue[0];
      var times := Touch(f.times, front);
      if now > times[front] + rto {
        var g := Filter(times - {front}, f.queue[1..]);
        assert NoLeak(g) by {
          forall k | k in g.times
            ensures k in g.queue
          {
            assert k in f.queue && k != front;
          }
        }
        PruneInventsNothing(g, now, rto, s);
        assert s in f.queue[1..] ==> s in f.queue;
      }
    }
  }

  // ---------------------------------------------------------------- runs

  /** A received Sequence, the time, and the RTO that the estimator gives at that time. */
  datatype Arrival = Arrival(sequence: Seq64, time: nat, rto: nat)

  /** The filter after the arrivals `xs`, oldest first. */
  function After(xs: seq<Arrival>): (f: Filter) {
    if xs == [] then EMPTY
    else
      var x := xs[|xs| - 1];
      Receive(After(xs[..|xs| - 1]), x.sequence, x.time, x.rto)
  }

  ghost predicate InTimeOrder(xs: seq<Arrival>) {
    forall i, j :: 0 <= i < j < |xs| ==> xs[i].time <= xs[j].time
  }

  /** Between arrivals `i` and `j` the RTO is never below `rto`; it may be fixed. */
  ghost predicate RtoAtLeast(xs: seq<Arrival>, i: nat, j: nat, rto: nat)
    requires j <= |xs|
  {
    forall h :: i < h < j ==> xs[h].rto >= rto
  }

  /** Nothing leaks, however often a Sequence is queued again and however the RTO changes. */
  lemma {:induction false} NothingLeaksInEveryRun(xs: seq<Arrival>)
    ensures NoLeak(After(xs))
  {
    if xs != [] {
      NothingLeaksInEveryRun(xs[..|xs| - 1]);
      PruneKeepsNoLeak(After(xs[..|xs| - 1]), xs[|xs| - 1].time, xs[|xs| - 1].rto);
    }
  }

  /** Once a Sequence is recorded at time t, every arrival up to time t + RTO finds it still
      recorded at t. */
  lemma {:induction false} RecordSurvives(xs: seq<Arrival>, i: nat, j: nat, rto: nat)
    requires i < j < |xs| && InTimeOrder(xs) && RtoAtLeast(xs, i, j, rto)
    requires xs[i].sequence in After(xs[..i + 1]).times
    requires xs[j].time <= After(xs[..i + 1]).times[xs[i].sequence] + rto
    ensures xs[i].sequence in After(xs[..j]).times
    ensures After(xs[..j]).times[xs[i].sequence] == After(xs[..i + 1]).times[xs[i].sequence]
    decreases j
  {
    hide Prune, Touch;
    if j > i + 1 {
      RecordSurvives(xs, i, j - 1, rto);
      var s := xs[i].sequence;
      var f := After(xs[..j - 1]);
      assert xs[..j][..j - 1] == xs[..j - 1];
      assert xs[j - 1].time <= xs[j].time;
      PruneKeepsRecent(f, xs[j - 1].time, xs[j - 1].rto, s);
    }
  }

  /** A Sequence received again within one RTO of the time recorded for it, while the RTO does
      not fall below that, is reported as a duplicate. */
  lemma DuplicateWithinRtoIsReported(xs: seq<Arrival>, i: nat, j: nat, rto: nat)
    requires i < j < |xs| && InTimeOrder(xs) && RtoAtLeast(xs, i, j, rto)
    requires xs[j].sequence == xs[i].sequence
    ensures xs[i].sequence in After(xs[..i + 1]).times
    ensures xs[j].time <= After(xs[..i + 1]).times[xs[i].sequence] + rto ==>
              IsDuplicate(After(xs[..j]), xs[j].sequence)
  {
    if xs[j].time <= After(xs[..i + 1]).times[xs[i].sequence] + rto {
      RecordSurvives(xs, i, j, rto);
    }
  }

  /** Only a Sequence that was received before is ever reported as a duplicate. */
  lemma {:induction false} DuplicateWasReceived(xs: seq<Arrival>, s: Seq64)
    requires s in After(xs).queue
    ensures exists i :: 0 <= i < |xs| && xs[i].sequence == s
  {
    if xs != [] {
      var n := |xs| - 1;
      if xs[n].sequence != s {
        NothingLeaksInEveryRun(xs[..n]);
        PruneInventsNothing(After(xs[..n]), xs[n].time, xs[n].rto, s);
        DuplicateWasReceived(xs[..n], s);
        var i :| 0 <= i < n && xs[..n][i].sequence == s;
        assert xs[i].sequence == s;
      }
    }
  }

  lemma NoFalseDuplicates(xs: seq<Arrival>, s: Seq64)
    requires IsDuplicate(After(xs), s)
    ensures exists i :: 0 <= i < |xs| && xs[i].sequence == s
  {
    NothingLeaksInEveryRun(xs);
    DuplicateWasReceived(xs, s);
  }

  /** A Sequence received for the first time is recorded with its arrival time ... */
  lemma FirstArrivalIsDated(xs: seq<Arrival>, i: nat)
    requires i < |xs| && forall h :: 0 <= h < i ==> xs[h].sequence != xs[i].sequence
    ensures !IsDuplicate(After(xs[..i]), xs[i].sequence)
    ensures xs[i].sequence in After(xs[..i + 1]).times
    ensures After(xs[..i + 1]).times[xs[i].sequence] == xs[i].time
  {
    assert xs[..i + 1][..i] == xs[..i];
    var f, s := After(xs[..i]), xs[i].sequence;
    NothingLeaksInEveryRun(xs[..i]);
    PruneKeepsNoLeak(f, xs[i].time, xs[i].rto);
    if s in Prune(f, xs[i].time, xs[i].rto).queue {
      PruneInventsNothing(f, xs[i].time, xs[i].rto, s);
    }
    if s in f.queue {
      DuplicateWasReceived(xs[..i], s);
    }
  }

  /** ... so that receiving it again within one RTO is always reported as a duplicate. */
  lemma RepeatWithinRtoIsReported(xs: seq<Arrival>, i: nat, j: nat, rto: nat)
    requires i < j < |xs| && InTimeOrder(xs) && RtoAtLeast(xs, i, j, rto)
    requires forall h :: 0 <= h < i ==> xs[h].sequence != xs[i].sequence
    requires xs[j].sequence == xs[i].sequence && xs[j].time <= xs[i].time + rto
    ensures IsDuplicate(After(xs[..j]), xs[j].sequence)
  {
    FirstArrivalIsDated(xs, i);
    DuplicateWithinRtoIsReported(xs, i, j, rto);
  }

  // ---------------------------------------------------------------- how long a Sequence is remembered

  function FirstPlace(queue: seq<Seq64>, s: Seq64): (p: nat)
    requires s in queue
    ensures p < |queue| && queue[p] == s
  {
    if queue[0] == s then 0 else 1 + FirstPlace(queue[1..], s)
  }

  /** The record of `q`, if there is one, is older than the RTO. */
  predicate Expired(f: Filter, q: Seq64, now: nat, rto: nat) {
    q in f.times ==> now > f.times[q] + rto
  }

  lemma {:induction false} StaysGone(f: Filter, now: nat, rto: nat, s: Seq64)
    requires s !in f.times && now > rto
    ensures s !in Prune(f, now, rto).times
    decreases |f.queue|
  {
    if f.queue != [] {
      var times := Touch(f.times, f.queue[0]);
      if now > times[f.queue[0]] + rto {
        StaysGone(Filter(times - {f.queue[0]}, f.queue[1..]), now, rto, s);
      }
    }
  }

  /** A remembered Sequence is forgotten exactly if its record and the records of all Sequences
      queued before it are older than the RTO. */
  lemma {:induction false} ForgottenIff(f: Filter, now: nat, rto: nat, s: Seq64)
    requires s in f.times && s in f.queue
    ensures s !in Prune(f, now, rto).times <==>
            forall i :: 0 <= i <= FirstPlace(f.queue, s) ==> Expired(f, f.queue[i], now, rto)
    decreases |f.queue|
  {
    var front := f.queue[0];
    var times := Touch(f.times, front);
    var g := Filter(times - {front}, f.queue[1..]);
    var p := FirstPlace(f.queue, s);
    if now <= times[front] + rto {
      assert !Expired(f, f.queue[0], now, rto) || !Expired(f, f.queue[p], now, rto);
    } else if front == s {
      StaysGone(g, now, rto, s);
    } else {
      ForgottenIff(g, now, rto, s);
      assert Expired(f, front, now, rto);
      assert forall i :: 0 <= i < p ==> g.queue[i] == f.queue[i + 1];
      assert forall i :: 0 <= i < p ==> (Expired(g, g.queue[i], now, rto) <==> Expired(f, f.queue[i + 1], now, rto));
      assert forall i :: 0 < i <= p ==> f.queue[i] == g.queue[i - 1];
    }
  }

  lemma {:induction false} PruneDropsAPrefix(f: Filter, now: nat, rto: nat)
    ensures var r := Prune(f, now, rto);
      |r.queue| <= |f.queue| && r.queue == f.queue[|f.queue| - |r.queue|..]
    decreases |f.queue|
  {
    if f.queue != [] {
      var times := Touch(f.times, f.queue[0]);
      if now > times[f.queue[0]] + rto {
        PruneDropsAPrefix(Filter(times - {f.queue[0]}, f.queue[1..]), now, rto);
      }
    }
  }

  /** The Sequences whose places in the queue are dropped are forgotten. */
  lemma {:induction false} DroppedIsForgotten(f: Filter, now: nat, rto: nat, p: nat)
    requires p < |f.queue| && |Prune(f, now, rto).queue| < |f.queue| - p
    ensures f.queue[p] !in Prune(f, now, rto).times
    decreases |f.queue|
  {
    var times := Touch(f.times, f.queue[0]);
    var g := Filter(times - {f.queue[0]}, f.queue[1..]);
    if now > times[f.queue[0]] + rto {
      if p == 0 {
        StaysGone(g, now, rto, f.queue[0]);
      } else {
        DroppedIsForgotten(g, now, rto, p - 1);
      }
    }
  }

  /** What is left after pruning: the front is not older than the RTO, and records are old ones or
      the epoch. */
  lemma {:induction false} PruneStops(f: Filter, now: nat, rto: nat)
    ensures var r := Prune(f, now, rto);
      && (r.queue != [] ==> r.queue[0] in r.times && now <= r.times[r.queue[0]] + rto)
      && (forall q :: q in r.times ==> r.times[q] == 0 || (q in f.times && r.times[q] == f.times[q]))
      && (r.queue == f.queue != [] && f.queue[0] in f.times ==> r.times == f.times)
    decreases |f.queue|
  {
    if f.queue != [] {
      var times := Touch(f.times, f.queue[0]);
      if now > times[f.queue[0]] + rto {
        var g := Filter(times - {f.queue[0]}, f.queue[1..]);
        PruneStops(g, now, rto);
        PruneDropsAPrefix(g, now, rto);
      }
    }
  }

  /** The queue holds the latest arrivals, so arrival `i` has place i - Dropped(xs) in it. */
  ghost function Dropped(xs: seq<Arrival>): int {
    |xs| - |After(xs).queue|
  }

  lemma {:induction false} QueueHoldsLatest(xs: seq<Arrival>)
    ensures 0 <= Dropped(xs) <= |xs|
    ensures forall i :: Dropped(xs) <= i < |xs| ==> After(xs).queue[i - Dropped(xs)] == xs[i].sequence
  {
    hide Prune;
    if xs != [] {
      var n := |xs| - 1;
      var f := After(xs[..n]);
      QueueHoldsLatest(xs[..n]);
      PruneDropsAPrefix(f, xs[n].time, xs[n].rto);
    }
  }

  lemma {:induction false} RecordsAreOld(xs: seq<Arrival>, q: Seq64)
    requires xs != [] && InTimeOrder(xs) && q in After(xs).times
    ensures After(xs).times[q] <= xs[|xs| - 1].time
  {
    hide Prune;
    var n := |xs| - 1;
    var f := After(xs[..n]);
    PruneStops(f, xs[n].time, xs[n].rto);
    if n > 0 && q in f.times {
      RecordsAreOld(xs[..n], q);
      assert xs[n - 1].time <= xs[n].time;
    }
  }

  /** The record at the front of the queue. */
  ghost predicate FrontWithin(f: Filter, last: nat, bound: int, rto: nat) {
    && f.queue != [] && f.queue[0] in f.times
    && f.times[f.queue[0]] <= bound
    && last <= f.times[f.queue[0]] + rto
  }

  ghost predicate RtoAtMost(xs: seq<Arrival>, i: nat, j: nat, rto: nat)
    requires j < |xs|
  {
    forall h :: i <= h <= j ==> xs[h].rto <= rto
  }

  /** One more arrival moves the front's record on by at most one RTO, and only if a place is
      dropped. */
  lemma FrontAdvances(f: Filter, last: nat, bound: int, rto: nat, x: Arrival)
    requires FrontWithin(f, last, bound, rto) && last <= x.time && x.rto <= rto
    requires forall q :: q in f.times ==> f.times[q] <= last
    ensures var r := Receive(f, x.sequence, x.time, x.rto);
      |r.queue| > 1 ==> FrontWithin(r, x.time, if |r.queue| == |f.queue| + 1 then bound else bound + rto, rto)
  {
    hide Prune;
    var g := Prune(f, x.time, x.rto);
    PruneStops(f, x.time, x.rto);
    PruneDropsAPrefix(f, x.time, x.rto);
  }

  lemma FrontIsFresh(f: Filter, x: Arrival)
    requires NoLeak(f)
    ensures var r := Receive(f, x.sequence, x.time, x.rto);
      r.queue != [] && r.queue[0] in r.times && x.time <= r.times[r.queue[0]] + x.rto
  {
    var g := Prune(f, x.time, x.rto);
    PruneStops(f, x.time, x.rto);
    PruneKeepsNoLeak(f, x.time, x.rto);
    hide Prune;
    if g.queue == [] {
      assert x.sequence !in g.times;
    }
  }

  lemma FrontAtArrival(xs: seq<Arrival>, rto: nat)
    requires xs != [] && InTimeOrder(xs) && xs[|xs| - 1].rto <= rto
    ensures FrontWithin(After(xs), xs[|xs| - 1].time, xs[|xs| - 1].time, rto)
  {
    hide Receive, InTimeOrder, NoLeak;
    NothingLeaksInEveryRun(xs[..|xs| - 1]);
    FrontIsFresh(After(xs[..|xs| - 1]), xs[|xs| - 1]);
    RecordsAreOld(xs, After(xs).queue[0]);
  }

  lemma FrontAfterNext(xs: seq<Arrival>, bound: int, rto: nat)
    requires |xs| > 1 && InTimeOrder(xs) && xs[|xs| - 1].rto <= rto && |After(xs).queue| > 1
    requires FrontWithin(After(xs[..|xs| - 1]), xs[|xs| - 2].time, bound, rto)
    ensures Dropped(xs) >= Dropped(xs[..|xs| - 1])
    ensures FrontWithin(After(xs), xs[|xs| - 1].time, if Dropped(xs) == Dropped(xs[..|xs| - 1]) then bound else bound + rto, rto)
  {
    hide Prune, FrontWithin;
    var x := xs[|xs| - 1];
    var ys := xs[..|xs| - 1];
    PruneDropsAPrefix(After(ys), x.time, x.rto);
    forall q | q in After(ys).times
      ensures After(ys).times[q] <= ys[|ys| - 1].time
    {
      RecordsAreOld(ys, q);
    }
    FrontAdvances(After(ys), ys[|ys| - 1].time, bound, rto, x);
  }

  lemma FrontWidens(f: Filter, last: nat, a: int, b: int, rto: nat)
    requires FrontWithin(f, last, a, rto) && a <= b
    ensures FrontWithin(f, last, b, rto)
  {
  }

  ghost function Scaled(rto: nat, n: int): int {
    rto * n
  }

  lemma ScaledZero(rto: nat)
    ensures Scaled(rto, 0) == 0
  {
  }

  lemma ScaledStep(rto: nat, d: int, e: int)
    requires d < e
    ensures Scaled(rto, d) + rto <= Scaled(rto, e)
  {
    MulMonotone(rto, d + 1, e);
  }

  /** As long as the place of arrival `i` is in the queue, the front's record is at most one RTO
      younger for each place dropped since. */
  lemma {:induction false} FrontIsBounded(xs: seq<Arrival>, i: nat, n: nat, rto: nat)
    requires i < n <= |xs| && InTimeOrder(xs) && RtoAtMost(xs, i, n - 1, rto) && Dropped(xs[..n]) <= i
    ensures Dropped(xs[..i + 1]) <= Dropped(xs[..n])
    ensures FrontWithin(After(xs[..n]), xs[n - 1].time, xs[i].time + Scaled(rto, Dropped(xs[..n]) - Dropped(xs[..i + 1])), rto)
    decreases n
  {
    hide FrontWithin, After, Scaled;
    if n == i + 1 {
      assert Scaled(rto, 0) == 0 by { ScaledZero(rto); }
      FrontAtArrival(xs[..n], rto);
    } else {
      var ys := xs[..n];
      assert ys[..n - 1] == xs[..n - 1];
      DroppedGrows(ys);
      FrontIsBounded(xs, i, n - 1, rto);
      var d, e := Dropped(xs[..n - 1]) - Dropped(xs[..i + 1]), Dropped(ys) - Dropped(xs[..i + 1]);
      FrontAfterNext(ys, xs[i].time + Scaled(rto, d), rto);
      if d < e {
        ScaledStep(rto, d, e);
        FrontWidens(After(ys), xs[n - 1].time, xs[i].time + Scaled(rto, d) + rto, xs[i].time + Scaled(rto, e), rto);
      }
    }
  }

  lemma DroppedGrows(xs: seq<Arrival>)
    requires xs != []
    ensures Dropped(xs[..|xs| - 1]) <= Dropped(xs)
  {
    hide Prune;
    PruneDropsAPrefix(After(xs[..|xs| - 1]), xs[|xs| - 1].time, xs[|xs| - 1].rto);
  }

  /** The place of arrival `i` is gone once one RTO has passed for it and for each place before it. */
  lemma PlaceIsDropped(xs: seq<Arrival>, i: nat, j: nat, rto: nat)
    requires i < j < |xs| && InTimeOrder(xs) && RtoAtMost(xs, i, j, rto)
    requires xs[j].time > xs[i].time + rto * |After(xs[..i + 1]).queue|
    ensures Dropped(xs[..j + 1]) > i
  {
    hide After;
    if Dropped(xs[..j + 1]) <= i {
      FrontIsBounded(xs, i, j + 1, rto);
      ScaledStep(rto, Dropped(xs[..j + 1]) - Dropped(xs[..i + 1]), |After(xs[..i + 1]).queue|);
      assert false;
    }
  }

  /** The filter as it is before arrival `h` is recorded, after expiry. */
  function Pruned(xs: seq<Arrival>, h: nat): (f: Filter)
    requires h < |xs|
  {
    Prune(After(xs[..h]), xs[h].time, xs[h].rto)
  }

  /** How long a Sequence is remembered.  An arrival that finds n places in the queue, with its own,
      is forgotten before any arrival more than n times the largest RTO later. */
  lemma {:induction false} ForgottenWithin(xs: seq<Arrival>, i: nat, j: nat, rto: nat)
    requires i < j < |xs| && InTimeOrder(xs) && RtoAtMost(xs, i, j, rto)
    requires xs[j].time > xs[i].time + rto * |After(xs[..i + 1]).queue|
    ensures exists h :: i < h <= j && xs[i].sequence !in Pruned(xs, h).times
  {
    PlaceIsDropped(xs, i, j, rto);
    QueueHoldsLatest(xs[..i + 1]);
    assert Dropped(xs[..i + 1]) <= i by { LastHasAPlace(xs[..i + 1]); }
    var h := WhenDropped(xs, i, j);
    assert xs[i].sequence !in Pruned(xs, h).times;
  }

  lemma LastHasAPlace(xs: seq<Arrival>)
    requires xs != []
    ensures After(xs).queue != []
  {
  }

  lemma {:induction false} WhenDropped(xs: seq<Arrival>, i: nat, j: nat) returns (h: nat)
    requires i < j < |xs| && Dropped(xs[..i + 1]) <= i < Dropped(xs[..j + 1])
    ensures i < h <= j && xs[i].sequence !in Pruned(xs, h).times
    decreases j
  {
    hide Prune;
    if i + 1 < j && Dropped(xs[..j]) > i {
      h := WhenDropped(xs, i, j - 1);
    } else {
      h := j;
      var f := After(xs[..j]);
      assert xs[..j + 1][..j] == xs[..j];
      QueueHoldsLatest(xs[..j]);
      PruneDropsAPrefix(f, xs[j].time, xs[j].rto);
      DroppedIsForgotten(f, xs[j].time, xs[j].rto, i - Dropped(xs[..j]));
    }
  }

  lemma FrontStays(f: Filter, s: Seq64, now: nat, rto: nat)
    requires f.queue != [] && f.queue[0] in f.times && now <= f.times[f.queue[0]] + rto
    ensures Receive(f, s, now, rto) == Remember(f, s, now)
  {
  }

  lemma FrontGoes(f: Filter, s: Seq64, now: nat, rto: nat)
    requires f.queue != [] && f.queue[0] in f.times && now > f.times[f.queue[0]] + rto
    ensures Receive(f, s, now, rto) == Receive(Filter(f.times - {f.queue[0]}, f.queue[1..]), s, now, rto)
  {
  }

  lemma AfterNext(xs: seq<Arrival>, n: nat)
    requires n < |xs|
    ensures After(xs[..n + 1]) == Receive(After(xs[..n]), xs[n].sequence, xs[n].time, xs[n].rto)
  {
    assert xs[..n + 1][..n] == xs[..n];
  }

  const REPEATED: seq<Arrival> := [Arrival(1, 1010, 50), Arrival(2, 1058, 50), Arrival(1, 1059, 50), Arrival(3, 1060, 50),
                                   Arrival(1, 1100, 50), Arrival(4, 1120, 50)]

  lemma FirstFour()
    ensures After(REPEATED[..4]) == Filter(map[1 := 1010, 2 := 1058, 3 := 1060], [1, 2, 1, 3])
  {
    hide After, Receive;
    var xs := REPEATED;
    AfterNext(xs, 0);
    NoArrivals(xs[..0]);
    FirstIsRecorded(1, 1010, 50);
    AfterNext(xs, 1);
    FrontStays(After(xs[..1]), 2, 1058, 50);
    AfterNext(xs, 2);
    FrontStays(After(xs[..2]), 1, 1059, 50);
    AfterNext(xs, 3);
    FrontStays(After(xs[..3]), 3, 1060, 50);
  }

  lemma NoArrivals(xs: seq<Arrival>)
    requires xs == []
    ensures After(xs) == EMPTY
  {
  }

  lemma FirstIsRecorded(s: Seq64, now: nat, rto: nat)
    ensures Receive(EMPTY, s, now, rto) == Filter(map[s := now], [s])
  {
  }

  /** A duplicate queues its Sequence again, and a Sequence behind it can outlive its own RTO:
      number 3, recorded at 1060 with an RTO of 50, is still reported after 1120. */
  lemma OutlivesItsRto()
    ensures InTimeOrder(REPEATED) && 3 in After(REPEATED[..4]).times && After(REPEATED[..4]).times[3] == 1060
    ensures REPEATED[5].time > 1060 + REPEATED[5].rto && IsDuplicate(After(REPEATED), 3)
  {
    hide After, Receive;
    var xs := REPEATED;
    FirstFour();
    var f4 := After(xs[..4]);
    AfterNext(xs, 4);
    FrontGoes(f4, 1, 1100, 50);
    FrontStays(Filter(f4.times - {1}, f4.queue[1..]), 1, 1100, 50);
    var f5 := After(xs[..5]);
    assert f5.queue == [2, 1, 3, 1] && f5.times == map[1 := 1100, 2 := 1058, 3 := 1060];
    AfterNext(xs, 5);
    FrontGoes(f5, 4, 1120, 50);
    FrontStays(Filter(f5.times - {2}, f5.queue[1..]), 4, 1120, 50);
    assert xs[..6] == xs;
  }
}
