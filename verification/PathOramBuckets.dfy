/** Exactly when Path ORAM is a memory: a bucket keeps at most four blocks whatever size it is
    configured with, and so larger bucket sizes lose writes. */
module PathOramBuckets {
  import opened Basics
  import opened PathOrams
  import opened PathOramMemory

  /** Every legal run from this state answers as a flat memory. */
  ghost predicate IsMemory(o: Oram)
    requires Shaped(o)
  {
    forall requests :: AllLegal(o.levels, |o.positionMap|, requests) ==>
      Answers(o, requests) == FlatAnswers(map[], requests)
  }

  // ---------------------------------------------------------------- runs

  function After(o: Oram, requests: seq<Request>): (r: Oram)
    requires Shaped(o) && AllLegal(o.levels, |o.positionMap|, requests)
    ensures Shaped(r) && r.levels == o.levels && |r.positionMap| == |o.positionMap|
    decreases |requests|
  {
    if requests == [] then o
    else
      assert Legal(o.levels, |o.positionMap|, requests[0]);
      After(Next(o, requests[0]), requests[1..])
  }

  function FlatNext(memory: map<nat, Data>, q: Request): (r: map<nat, Data>) {
    match q.op
    case Read => memory
    case Write(data) => memory[q.index := data]
  }

  function FlatAnswer(memory: map<nat, Data>, q: Request): (r: Data) {
    if q.op.Read? && q.index in memory then memory[q.index] else ZERO
  }

  function FlatAfter(memory: map<nat, Data>, requests: seq<Request>): (r: map<nat, Data>)
    decreases |requests|
  {
    if requests == [] then memory else FlatAfter(FlatNext(memory, requests[0]), requests[1..])
  }

  lemma {:induction false} OneMore(o: Oram, memory: map<nat, Data>, requests: seq<Request>, q: Request)
    requires Shaped(o) && AllLegal(o.levels, |o.positionMap|, requests) && Legal(o.levels, |o.positionMap|, q)
    ensures var more := requests + [q];
      && AllLegal(o.levels, |o.positionMap|, more)
      && After(o, more) == Next(After(o, requests), q)
      && Answers(o, more) == Answers(o, requests) + [Answer(After(o, requests), q.op, q.index)]
      && FlatAfter(memory, more) == FlatNext(FlatAfter(memory, requests), q)
      && FlatAnswers(memory, more) == FlatAnswers(memory, requests) + [FlatAnswer(FlatAfter(memory, requests), q)]
    decreases |requests|
  {
    hide Next, Answer;
    var more := requests + [q];
    if requests == [] {
      assert more[1..] == [];
    } else {
      assert Legal(o.levels, |o.positionMap|, requests[0]);
      assert more[0] == requests[0] && more[1..] == requests[1..] + [q];
      OneMore(Next(o, requests[0]), FlatNext(memory, requests[0]), requests[1..], q);
    }
  }

  // ---------------------------------------------------------------- an empty tree

  /** Reading an empty tree only moves the block to its new leaf. */
  lemma ReadKeepsInitial(o: Oram, index: nat, newLeaf: nat)
    requires IsInitial(o) && index < |o.positionMap| && newLeaf < Pow2(o.levels - 1)
    ensures var r := Access(o, Read, index, newLeaf);
      IsInitial(r) && r.positionMap == o.positionMap[index := newLeaf]
  {
    hide P, Pow2;
    var leaf := o.positionMap[index];
    var o1 := Remap(o, index, newLeaf);
    NoPathBlocks(o1, leaf, o.levels);
    assert Absorb(o1, leaf).stash == [];
    EvictKeepsInitial(o1, leaf, o.levels);
    assert Absorb(o1, leaf) == o1 && WithStash(o1, Apply(Read, o1.stash, index)) == o1;
  }

  lemma {:induction false} NoReal(s: seq<Block>)
    requires forall x :: x in s ==> x.index == -1
    ensures Reals(s) == []
  {
    if s != [] {
      assert s[|s| - 1] in s;
      assert forall x :: x in s[..|s| - 1] ==> x in s;
      NoReal(s[..|s| - 1]);
    }
  }

  lemma {:induction false} NoPathBlocks(o: Oram, leaf: nat, n: nat)
    requires IsInitial(o) && leaf < Pow2(o.levels - 1) && n <= o.levels
    ensures PathBlocks(o.buckets, o.levels, leaf, n) == []
  {
    hide P;
    if n > 0 {
      NoPathBlocks(o, leaf, n - 1);
      LevelOfBucket(o.levels, leaf, n - 1);
      NoReal(o.buckets[P(o.levels, leaf, n - 1)]);
    }
  }

  lemma {:induction false} EvictKeepsInitial(o: Oram, leaf: nat, n: nat)
    requires IsInitial(o) && leaf < Pow2(o.levels - 1) && n <= o.levels
    ensures IsInitial(Evict(o, leaf, n)) && Evict(o, leaf, n).stash == []
    decreases n
  {
    hide P;
    if n > 0 {
      var o' := EvictLevel(o, leaf, n - 1);
      LevelOfBucket(o.levels, leaf, n - 1);
      forall x | x in MakeBucket([], o.bucketSize)
        ensures x.index == -1
      {
        assert x in [] + Dummies(o.bucketSize);
      }
      EvictKeepsInitial(o', leaf, n - 1);
    }
  }

  // ---------------------------------------------------------------- filling one leaf bucket

  /** Blocks 0 to k-1 hold `d`, nothing else is stored, and blocks 0 to 4 belong to leaf 0. */
  ghost predicate Filled(o: Oram, d: Data, k: nat) {
    && Inv(o) && |o.positionMap| >= 5
    && (forall j :: 0 <= j < 5 ==> o.positionMap[j] == 0)
    && (forall x :: x in o.stash ==> x.index != -1)
    && (forall x :: x in All(o) ==> 0 <= x.index < k && x.data == d)
    && (forall j :: 0 <= j < k ==> Block(j, d) in All(o))
  }

  lemma AccessFrame(o: Oram, op: Operation, index: nat, newLeaf: nat)
    requires Shaped(o) && index < |o.positionMap| && newLeaf < Pow2(o.levels - 1)
    ensures var r := Access(o, op, index, newLeaf);
      && r.positionMap == o.positionMap[index := newLeaf]
      && forall x :: x in r.stash ==> x.index != -1
  {
    hide Evict, Reals, PathBlocks;
  }

  lemma FilledStep(o: Oram, d: Data, k: nat)
    requires Filled(o, d, k) && k < BUCKET_CAPACITY
    ensures Filled(Access(o, Write(d), k, 0), d, k + 1)
  {
    hide All, Inv, Carried, Access, Distinct, Written;
    InvMeans(o);
    var o' := Access(o, Write(d), k, 0);
    CarriedBelow(o, Write(d), k, k + 1);
    AccessIsMemory(o, Write(d), k, 0);
    AccessFrame(o, Write(d), k, 0);
    WriteIsAssignment(All(o), All(o'), k, d);
    forall x | x in All(o')
      ensures 0 <= x.index < k + 1 && x.data == d
    {
      if x.index == k {
        assert x == Block(k, x.data);
      } else {
        assert x in All(o);
      }
    }
  }

  lemma InvMeans(o: Oram)
    requires Inv(o)
    ensures Shaped(o) && Distinct(All(o)) && Placed(o) && StashInRange(o)
  {
  }

  // ---------------------------------------------------------------- the fifth block

  /** With room for all of them, every eligible block is picked. */
  lemma {:induction false} PickAll(o: Oram, leaf: nat, level: nat, stash: seq<Block>, room: nat)
    requires level < o.levels && |stash| <= room && forall x :: x in stash ==> Eligible(o, leaf, level, x)
    ensures var r := Pick(o, leaf, level, stash, room);
      r.0 == stash && forall x :: x in r.1 ==> x.index == -1
  {
    hide Eligible;
    if stash != [] {
      var n := |stash| - 1;
      assert forall x :: x in stash[..n] ==> x in stash;
      PickAll(o, leaf, level, stash[..n], room);
      assert stash[n] in stash;
      assert stash == stash[..n] + [stash[n]];
    }
  }

  /** All of the path's four blocks are in the stash before the fifth is written. */
  lemma FourInStash(o: Oram, d: Data)
    requires Filled(o, d, 4)
    ensures var stash := Absorb(o, 0).stash;
      && |stash| == 4 && (forall x :: x in stash ==> 0 <= x.index < 4)
      && Items(stash) == All(o) && Sum(Cleared(o.buckets, o.levels, 0, o.levels)) == multiset{}
  {
    hide All, Items, Sum, Cleared, PathBlocks, Reals, Distinct, Placed, StashInRange;
    InvMeans(o);
    var stash := Absorb(o, 0).stash;
    var rest := Sum(Cleared(o.buckets, o.levels, 0, o.levels));
    AccessConserves(o, Read, 0, 0);
    if x: Block :| x in rest {
      assert x in All(o);
      PathIsInStash(o, 0, x);
    }
    assert rest == multiset{};
    AbsorbIsReal(o, 0);
    ItemsOfRealList(stash);
    FourBlocks(All(o), d);
    forall x | x in stash
      ensures 0 <= x.index < 4
    {
      ItemsMember(stash, x);
    }
  }

  lemma {:induction false} PathBlocksAreReal(o: Oram, leaf: nat, n: nat)
    requires Shaped(o) && leaf < Pow2(o.levels - 1) && n <= o.levels
    ensures forall x :: x in PathBlocks(o.buckets, o.levels, leaf, n) ==> x.index != -1
  {
    hide P;
    if n > 0 {
      LevelOfBucket(o.levels, leaf, n - 1);
      PathBlocksAreReal(o, leaf, n - 1);
    }
  }

  lemma AbsorbIsReal(o: Oram, leaf: nat)
    requires Shaped(o) && leaf < Pow2(o.levels - 1) && forall x :: x in o.stash ==> x.index != -1
    ensures forall x :: x in Absorb(o, leaf).stash ==> x.index != -1
  {
    hide PathBlocks;
    PathBlocksAreReal(o, leaf, o.levels);
  }

  lemma FourBlocks(all: multiset<Block>, d: Data)
    requires Distinct(all)
    requires (forall x :: x in all ==> 0 <= x.index < 4 && x.data == d) && (forall j :: 0 <= j < 4 ==> Block(j, d) in all)
    ensures |all| == 4
  {
    var four := multiset{Block(0, d), Block(1, d), Block(2, d), Block(3, d)};
    forall x: Block
      ensures all[x] == four[x]
    {
      if x in all {
        assert x == Block(x.index, d);
      }
    }
    assert all == four;
  }

  /** The write-back of five blocks to one leaf bucket of size five or more drops the last. */
  lemma FifthWriteIsLost(o: Oram, d: Data)
    requires Filled(o, d, 4) && o.bucketSize > BUCKET_CAPACITY
    ensures All(Access(o, Write(d), 4, 0)) <= All(o)
  {
    hide All, Items, Sum, Cleared, PathBlocks, Reals, Distinct, Placed, StashInRange, Evict, EvictLevel, P, MakeBucket, Pick;
    InvMeans(o);
    FourInStash(o, d);
    var stash := Absorb(o, 0).stash;
    var five := stash + [Block(4, d)];
    assert Put(stash, 4, d) == five;
    var n := o.levels;
    var o1 := Absorb(Remap(o, 4, 0), 0);
    var o2 := WithStash(o1, five);
    assert o1.stash == stash && o2.positionMap == o.positionMap[4 := 0] == o.positionMap;
    forall x | x in five
      ensures Eligible(o2, 0, n - 1, x)
    {
    }
    PickAll(o2, 0, n - 1, five, o.bucketSize);
    EvictLevelSum(o2, 0, n);
    var o3 := EvictLevel(o2, 0, n - 1);
    assert MakeBucket(five, o.bucketSize) == stash by { FirstFour(stash, Block(4, d), o.bucketSize); }
    NoReals(o3.stash);
    EvictBounded(o3, 0, n - 1);
    EvictStep(o2, 0, n);
    ItemsOfReals(Evict(o2, 0, n).stash);
    AllOfAccess(o, Write(d), 4, 0);
  }

  lemma FirstFour(stash: seq<Block>, x: Block, bucketSize: nat)
    requires |stash| == 4 && bucketSize > BUCKET_CAPACITY
    ensures MakeBucket(stash + [x], bucketSize) == stash
  {
  }

  lemma EvictStep(o: Oram, leaf: nat, n: nat)
    requires 0 < n <= o.levels && Shaped(o) && leaf < Pow2(o.levels - 1)
    ensures Evict(o, leaf, n) == Evict(EvictLevel(o, leaf, n - 1), leaf, n - 1)
  {
  }

  lemma AllOfAccess(o: Oram, op: Operation, index: nat, newLeaf: nat)
    requires Shaped(o) && index < |o.positionMap| && newLeaf < Pow2(o.levels - 1)
    ensures var leaf := o.positionMap[index];
      var o1 := Absorb(Remap(o, index, newLeaf), leaf);
      All(Access(o, op, index, newLeaf)) == All(Evict(WithStash(o1, Apply(op, o1.stash, index)), leaf, o.levels))
  {
    hide Evict, Apply, PathBlocks, Reals, Sum, Items;
    var leaf := o.positionMap[index];
    var o1 := Absorb(Remap(o, index, newLeaf), leaf);
    ItemsOfReals(Evict(WithStash(o1, Apply(op, o1.stash, index)), leaf, o.levels).stash);
  }

  // ---------------------------------------------------------------- the run

  /** Blocks 0 to 4 are read and then written, each time drawing leaf 0. */
  function ReadsThenWrites(d: Data, n: nat): (r: seq<Request>)
    requires n <= 10
  {
    if n == 0 then []
    else ReadsThenWrites(d, n - 1) + [if n <= 5 then Request(Read, n - 1, 0) else Request(Write(d), n - 6, 0)]
  }

  ghost predicate DuringRun(r: Oram, d: Data, n: nat) {
    if n < 5 then IsInitial(r) && |r.positionMap| >= 5 && forall j :: 0 <= j < n ==> r.positionMap[j] == 0
    else Filled(r, d, n - 5)
  }

  lemma ReadStep(v: Oram, d: Data, n: nat)
    requires DuringRun(v, d, n) && n < 5
    ensures DuringRun(Access(v, Read, n, 0), d, n + 1)
  {
    hide Access, Filled, Shaped;
    InitialIsShaped(v);
    ReadKeepsInitial(v, n, 0);
    if n == 4 {
      InitialIsFilled(Access(v, Read, n, 0), d);
    }
  }

  lemma DuringIsShaped(v: Oram, d: Data, n: nat)
    requires DuringRun(v, d, n)
    ensures Shaped(v) && |v.positionMap| >= 5
  {
  }

  /** The reads bring blocks 0 to 4 to leaf 0; the writes then fill its bucket. */
  lemma {:induction false} StateDuringRun(o: Oram, d: Data, n: nat)
    requires IsInitial(o) && |o.positionMap| >= 5 && n <= 9
    ensures Shaped(o) && AllLegal(o.levels, |o.positionMap|, ReadsThenWrites(d, n))
    ensures var r := After(o, ReadsThenWrites(d, n)); r.bucketSize == o.bucketSize && DuringRun(r, d, n)
  {
    InitialIsShaped(o);
    hide After, Access, DuringRun, IsInitial, AllLegal, Shaped;
    if n == 0 {
      NoRequests(o, d);
    } else {
      StateDuringRun(o, d, n - 1);
      var rs := ReadsThenWrites(d, n - 1);
      var v := After(o, rs);
      DuringIsShaped(v, d, n - 1);
      if n <= 5 {
        OneMore(o, map[], rs, Request(Read, n - 1, 0));
        ReadStep(v, d, n - 1);
      } else {
        OneMore(o, map[], rs, Request(Write(d), n - 6, 0));
        WriteStep(v, d, n - 1);
      }
    }
  }

  lemma WriteStep(v: Oram, d: Data, n: nat)
    requires DuringRun(v, d, n) && 5 <= n < 9
    ensures Shaped(v) && |v.positionMap| >= 5
    ensures DuringRun(Access(v, Write(d), n - 5, 0), d, n + 1)
  {
    FilledStep(v, d, n - 5);
  }

  lemma NoRequests(o: Oram, d: Data)
    requires IsInitial(o) && |o.positionMap| >= 5
    ensures AllLegal(o.levels, |o.positionMap|, []) && After(o, []) == o && DuringRun(o, d, 0)
  {
  }

  lemma InitialIsShaped(o: Oram)
    requires IsInitial(o)
    ensures Shaped(o)
  {
  }

  lemma InitialIsFilled(o: Oram, d: Data)
    requires IsInitial(o) && |o.positionMap| >= 5 && forall j :: 0 <= j < 5 ==> o.positionMap[j] == 0
    ensures Filled(o, d, 0)
  {
    InitialIsEmpty(o);
  }

  /** A run of eleven requests in which buckets of more than four lose the last write: the final
      READ of block 4 returns zeros although `d` was written to it. */
  lemma LargeBucketsLoseAWrite(o: Oram, d: Data)
    requires IsInitial(o) && !Fits(o.bucketSize, |o.positionMap|)
    ensures var requests := ReadsThenWrites(d, 10) + [Request(Read, 4, 0)];
      && AllLegal(o.levels, |o.positionMap|, requests)
      && |Answers(o, requests)| == |FlatAnswers(map[], requests)| == 11
      && Answers(o, requests)[10] == ZERO && FlatAnswers(map[], requests)[10] == d
  {
    hide After, Access, Filled, IsInitial, AllLegal, Answer, All, FlatAfter;
    InitialIsShaped(o);
    StateDuringRun(o, d, 9);
    var nine, ten := ReadsThenWrites(d, 9), ReadsThenWrites(d, 10);
    var v := After(o, nine);
    assert Filled(v, d, 4);
    OneMore(o, map[], nine, Request(Write(d), 4, 0));
    assert ten == nine + [Request(Write(d), 4, 0)];
    FifthIsGone(v, d);
    OneMore(o, map[], ten, Request(Read, 4, 0));
    AnswersLength(o, map[], ten);
    RunLength(d, 10);
  }

  lemma {:induction false} RunLength(d: Data, n: nat)
    requires n <= 10
    ensures |ReadsThenWrites(d, n)| == n
  {
    if n > 0 {
      RunLength(d, n - 1);
    }
  }

  lemma {:induction false} AnswersLength(o: Oram, memory: map<nat, Data>, requests: seq<Request>)
    requires Shaped(o) && AllLegal(o.levels, |o.positionMap|, requests)
    ensures |Answers(o, requests)| == |requests| == |FlatAnswers(memory, requests)|
    decreases |requests|
  {
    hide Next, Answer;
    if requests != [] {
      assert Legal(o.levels, |o.positionMap|, requests[0]);
      AnswersLength(Next(o, requests[0]), FlatNext(memory, requests[0]), requests[1..]);
    }
  }

  lemma FifthIsGone(o: Oram, d: Data)
    requires Filled(o, d, 4) && o.bucketSize > BUCKET_CAPACITY
    ensures Answer(Access(o, Write(d), 4, 0), Read, 4) == ZERO
  {
    hide All, Access, Answer, Carried, Placed, StashInRange, Distinct;
    FifthWriteIsLost(o, d);
    AccessIsMemory(o, Write(d), 4, 0);
    var o' := Access(o, Write(d), 4, 0);
    AccessIsMemory(o', Read, 4, 0);
    forall e
      ensures Block(4, e) !in All(o')
    {
      assert Block(4, e) !in All(o);
    }
  }

  // ---------------------------------------------------------------- exactly when

  /** From a first state, whatever positions were drawn: every run answers as a flat memory if
      and only if the bucket size is at most 4 or there are at most 4 blocks. */
  lemma IsMemoryIff(o: Oram)
    requires IsInitial(o)
    ensures IsMemory(o) <==> Fits(o.bucketSize, |o.positionMap|)
  {
    hide Answers, FlatAnswers, AllLegal, IsInitial;
    InitialIsShaped(o);
    if Fits(o.bucketSize, |o.positionMap|) {
      forall requests | AllLegal(o.levels, |o.positionMap|, requests)
        ensures Answers(o, requests) == FlatAnswers(map[], requests)
      {
        EveryRunIsFlatMemory(o, requests);
      }
    } else {
      var d: Data := ZERO[0 := 1];
      assert d[0] != ZERO[0];
      LargeBucketsLoseAWrite(o, d);
      assert Answers(o, ReadsThenWrites(d, 10) + [Request(Read, 4, 0)])
          != FlatAnswers(map[], ReadsThenWrites(d, 10) + [Request(Read, 4, 0)]);
    }
  }
}
