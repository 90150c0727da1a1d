/** Path ORAM refines a flat memory: whatever leaves are drawn, a READ returns the data last
    written to the block (all zeros if there is none) and no other block changes. */
module PathOramMemory {
  import opened Basics
  import opened PathOrams

  // ---------------------------------------------------------------- blocks held

  /** The real blocks of a list, with multiplicity. */
  ghost function Items(s: seq<Block>): multiset<Block> {
    if s == [] then multiset{}
    else Items(s[..|s| - 1]) + if s[|s| - 1].index != -1 then multiset{s[|s| - 1]} else multiset{}
  }

  ghost function Sum(buckets: seq<seq<Block>>): multiset<Block> {
    if buckets == [] then multiset{} else Sum(buckets[..|buckets| - 1]) + Items(buckets[|buckets| - 1])
  }

  /** Every real block, in the tree or in the stash. */
  ghost function All(o: Oram): multiset<Block> {
    Items(o.stash) + Sum(o.buckets)
  }

  lemma MoveOut(moved: multiset<Block>, rest: multiset<Block>, all: multiset<Block>, more: multiset<Block>, left: multiset<Block>)
    requires moved + rest == all && left + more == rest
    ensures (moved + more) + left == all
  {
  }

  lemma Gained(filled: multiset<Block>, emptied: multiset<Block>, put: multiset<Block>, was: multiset<Block>, tree: multiset<Block>)
    requires filled + was == tree + put && emptied + was == tree
    ensures filled == emptied + put
  {
    assert filled + was == (emptied + put) + was;
    Cancel(filled, emptied + put, was);
  }

  lemma Interchange(a: multiset<Block>, last: multiset<Block>, b: multiset<Block>, c: multiset<Block>, d: multiset<Block>)
    requires a + b == c + d
    ensures (a + last) + b == (c + last) + d
  {
    assert (a + last) + b == (a + b) + last;
  }

  lemma Cancel(a: multiset<Block>, b: multiset<Block>, c: multiset<Block>)
    requires a + c == b + c
    ensures a == b
  {
    forall x: Block
      ensures a[x] == b[x]
    {
      assert (a + c)[x] == (b + c)[x];
    }
  }

  lemma EmptyItems()
    ensures Items([]) == multiset{}
  {
  }

  lemma {:induction false} ItemsConcat(a: seq<Block>, b: seq<Block>)
    ensures Items(a + b) == Items(a) + Items(b)
  {
    if b == [] {
      assert a + b == a;
    } else {
      var n := |b| - 1;
      assert (a + b)[..|a + b| - 1] == a + b[..n];
      ItemsConcat(a, b[..n]);
    }
  }

  lemma {:induction false} ItemsOfReals(s: seq<Block>)
    ensures Items(Reals(s)) == Items(s)
  {
    if s != [] {
      var n := |s| - 1;
      ItemsOfReals(s[..n]);
      var last := if s[n].index != -1 then [s[n]] else [];
      ItemsConcat(Reals(s[..n]), last);
      assert Items([]) == multiset{};
      assert Items([s[n]]) == Items([]) + if s[n].index != -1 then multiset{s[n]} else multiset{} by {
        assert [s[n]][..0] == [];
      }
    }
  }

  lemma {:induction false} ItemsMember(s: seq<Block>, x: Block)
    ensures x in Items(s) <==> x in s && x.index != -1
  {
    if s != [] {
      var n := |s| - 1;
      ItemsMember(s[..n], x);
      assert s == s[..n] + [s[n]];
    }
  }

  lemma {:induction false} ItemsOfDummies(n: nat)
    ensures Items(Dummies(n)) == multiset{}
  {
    if n > 0 {
      ItemsOfDummies(n - 1);
      assert Dummies(n)[..n - 1] == Dummies(n - 1);
    }
  }

  lemma ItemsReplace(s: seq<Block>, t: nat, x: Block)
    requires t < |s| && s[t].index != -1 && x.index != -1
    ensures Items(s[t := x]) + multiset{s[t]} == Items(s) + multiset{x}
  {
    var a, b := s[..t], s[t + 1..];
    assert s == a + [s[t]] + b && s[t := x] == a + [x] + b;
    ItemsConcat(a + [s[t]], b);
    ItemsConcat(a + [x], b);
    ItemsConcat(a, [s[t]]);
    ItemsConcat(a, [x]);
    ItemsOfOne(s[t]);
    ItemsOfOne(x);
  }

  lemma ItemsOfOne(x: Block)
    requires x.index != -1
    ensures Items([x]) == multiset{x}
  {
    assert [x][..0] == [];
  }

  lemma {:induction false} SumReplace(buckets: seq<seq<Block>>, i: nat, b: seq<Block>)
    requires i < |buckets|
    ensures Sum(buckets[i := b]) + Items(buckets[i]) == Sum(buckets) + Items(b)
  {
    var n := |buckets| - 1;
    if i == n {
      assert buckets[i := b][..n] == buckets[..n];
    } else {
      var new' := buckets[i := b];
      assert new'[..n] == buckets[..n][i := b] && new'[n] == buckets[n];
      SumReplace(buckets[..n], i, b);
      assert Sum(new') == Sum(new'[..n]) + Items(buckets[n]);
      Interchange(Sum(new'[..n]), Items(buckets[n]), Items(buckets[i]), Sum(buckets[..n]), Items(b));
    }
  }

  lemma {:induction false} SumMember(buckets: seq<seq<Block>>, x: Block) returns (i: nat)
    requires x in Sum(buckets)
    ensures i < |buckets| && x in buckets[i] && x.index != -1
  {
    var n := |buckets| - 1;
    if x in Items(buckets[n]) {
      ItemsMember(buckets[n], x);
      i := n;
    } else {
      i := SumMember(buckets[..n], x);
    }
  }

  // ---------------------------------------------------------------- conservation

  /** The tree with the first `n` buckets of a path emptied. */
  ghost function Cleared(buckets: seq<seq<Block>>, levels: nat, leaf: nat, n: nat): (r: seq<seq<Block>>)
    requires n <= levels && IsTree(buckets, levels) && leaf < Pow2(levels - 1)
    ensures |r| == |buckets|
  {
    if n == 0 then buckets
    else
      LevelOfBucket(levels, leaf, n - 1);
      Cleared(buckets, levels, leaf, n - 1)[P(levels, leaf, n - 1) := []]
  }

  lemma {:induction false} ClearedAt(buckets: seq<seq<Block>>, levels: nat, leaf: nat, n: nat, b: nat)
    requires n <= levels && IsTree(buckets, levels) && leaf < Pow2(levels - 1) && b < |buckets|
    ensures Cleared(buckets, levels, leaf, n)[b]
         == if exists l: nat :: l < n && P(levels, leaf, l) == b then [] else buckets[b]
  {
    if n > 0 {
      LevelOfBucket(levels, leaf, n - 1);
      ClearedAt(buckets, levels, leaf, n - 1, b);
      if P(levels, leaf, n - 1) != b && exists l: nat :: l < n && P(levels, leaf, l) == b {
        var l: nat :| l < n && P(levels, leaf, l) == b;
        assert l < n - 1;
      }
    }
  }

  lemma ClearedKeepsDeeper(buckets: seq<seq<Block>>, levels: nat, leaf: nat, n: nat)
    requires n < levels && IsTree(buckets, levels) && leaf < Pow2(levels - 1)
    ensures P(levels, leaf, n) < |buckets|
    ensures Cleared(buckets, levels, leaf, n)[P(levels, leaf, n)] == buckets[P(levels, leaf, n)]
  {
    var b := P(levels, leaf, n);
    LevelOfBucket(levels, leaf, n);
    ClearedAt(buckets, levels, leaf, n, b);
    forall l: nat | l < n
      ensures P(levels, leaf, l) != b
    {
      PathBucketsDiffer(levels, leaf, leaf, l, n);
    }
  }

  /** Reading a path moves its real blocks and leaves the other buckets alone. */
  lemma {:induction false} PathBlocksConserve(buckets: seq<seq<Block>>, levels: nat, leaf: nat, n: nat)
    requires n <= levels && IsTree(buckets, levels) && leaf < Pow2(levels - 1)
    ensures Items(PathBlocks(buckets, levels, leaf, n)) + Sum(Cleared(buckets, levels, leaf, n)) == Sum(buckets)
  {
    hide Reals, P, Items, Sum;
    if n == 0 {
      assert Items(PathBlocks(buckets, levels, leaf, 0)) == multiset{} by { EmptyItems(); }
    } else {
      PathBlocksConserve(buckets, levels, leaf, n - 1);
      ClearedKeepsDeeper(buckets, levels, leaf, n - 1);
      var b := P(levels, leaf, n - 1);
      SumReplace(Cleared(buckets, levels, leaf, n - 1), b, []);
      EmptyItems();
      ItemsConcat(PathBlocks(buckets, levels, leaf, n - 1), Reals(buckets[b]));
      ItemsOfReals(buckets[b]);
      MoveOut(Items(PathBlocks(buckets, levels, leaf, n - 1)), Sum(Cleared(buckets, levels, leaf, n - 1)),
        Sum(buckets), Items(buckets[b]), Sum(Cleared(buckets, levels, leaf, n)));
    }
  }

  lemma {:induction false} PickConserves(o: Oram, leaf: nat, level: nat, stash: seq<Block>, room: nat)
    requires level < o.levels
    ensures var r := Pick(o, leaf, level, stash, room); Items(r.0) + Items(r.1) == Items(stash)
  {
    if stash != [] {
      var n := |stash| - 1;
      PickConserves(o, leaf, level, stash[..n], room);
      var p := Pick(o, leaf, level, stash[..n], room);
      var r := Pick(o, leaf, level, stash, room);
      assert r.1[..n] == p.1;
      if Eligible(o, leaf, level, stash[n]) && |p.0| < room {
        assert r.0[..|p.0|] == p.0;
      }
    }
  }

  lemma {:induction false} PickedAreEligible(o: Oram, leaf: nat, level: nat, stash: seq<Block>, room: nat)
    requires level < o.levels
    ensures var r := Pick(o, leaf, level, stash, room);
      && (forall x :: x in r.0 ==> Eligible(o, leaf, level, x))
      && (forall x :: x in r.1 && x.index != -1 ==> x in stash)
  {
    if stash != [] {
      var n := |stash| - 1;
      PickedAreEligible(o, leaf, level, stash[..n], room);
    }
  }

  lemma {:induction false} ItemsOfRealList(s: seq<Block>)
    requires forall x :: x in s ==> x.index != -1
    ensures |Items(s)| == |s|
  {
    if s != [] {
      assert forall x :: x in s[..|s| - 1] ==> x in s;
      ItemsOfRealList(s[..|s| - 1]);
    }
  }

  lemma {:induction false} NoReals(s: seq<Block>)
    requires forall x :: x in s ==> x.index == -1
    ensures Items(s) == multiset{}
  {
    if s != [] {
      assert s[|s| - 1] in s;
      assert forall x :: x in s[..|s| - 1] ==> x in s;
      NoReals(s[..|s| - 1]);
    }
  }

  /** Whatever its size, a bucket holds only picked blocks and dummies. */
  lemma BucketHoldsOnlyPicked(taken: seq<Block>, bucketSize: nat, x: Block)
    requires |taken| <= bucketSize && x in MakeBucket(taken, bucketSize) && x.index != -1
    ensures x in taken
  {
    assert x in taken + Dummies(bucketSize - |taken|);
  }

  lemma BucketItems(taken: seq<Block>, bucketSize: nat)
    requires |taken| <= bucketSize
    ensures Items(MakeBucket(taken, bucketSize)) <= Items(taken)
  {
    hide Items, Dummies;
    var padding := Dummies(bucketSize - |taken|);
    var slots := taken + padding;
    ItemsConcat(taken, padding);
    ItemsOfDummies(bucketSize - |taken|);
    if bucketSize > BUCKET_CAPACITY {
      assert slots == slots[..BUCKET_CAPACITY] + slots[BUCKET_CAPACITY..];
      ItemsConcat(slots[..BUCKET_CAPACITY], slots[BUCKET_CAPACITY..]);
      Part(Items(slots[..BUCKET_CAPACITY]), Items(slots[BUCKET_CAPACITY..]));
    }
  }

  lemma Part(a: multiset<Block>, b: multiset<Block>)
    ensures a <= a + b
  {
  }

  /** A bucket keeps every block picked for it exactly when at most BUCKET_CAPACITY are
      picked, whatever the configured bucket size. */
  lemma BucketKeepsPickedIff(o: Oram, leaf: nat, level: nat)
    requires level < o.levels
    ensures var taken := Pick(o, leaf, level, o.stash, o.bucketSize).0;
      Items(MakeBucket(taken, o.bucketSize)) == Items(taken) <==> |taken| <= BUCKET_CAPACITY
  {
    hide Pick, Items;
    var taken := Pick(o, leaf, level, o.stash, o.bucketSize).0;
    PickedAreEligible(o, leaf, level, o.stash, o.bucketSize);
    forall x | x in taken
      ensures x.index != -1
    {
      assert Eligible(o, leaf, level, x);
    }
    ItemsOfRealList(taken);
    if |taken| <= BUCKET_CAPACITY {
      var kept := MakeBucket(taken, o.bucketSize)[|taken|..];
      assert MakeBucket(taken, o.bucketSize) == taken + kept;
      ItemsConcat(taken, kept);
      assert Items(kept) == multiset{} by { NoReals(kept); }
    } else {
      assert MakeBucket(taken, o.bucketSize) == taken[..BUCKET_CAPACITY];
      ItemsOfRealList(taken[..BUCKET_CAPACITY]);
    }
  }

  lemma PickedCount(o: Oram, leaf: nat, level: nat)
    requires level < o.levels
    ensures |Pick(o, leaf, level, o.stash, o.bucketSize).0| <= |Items(o.stash)|
  {
    hide Pick, Items;
    var r := Pick(o, leaf, level, o.stash, o.bucketSize);
    PickConserves(o, leaf, level, o.stash, o.bucketSize);
    PickedAreEligible(o, leaf, level, o.stash, o.bucketSize);
    forall x | x in r.0
      ensures x.index != -1
    {
      assert Eligible(o, leaf, level, x);
    }
    ItemsOfRealList(r.0);
    assert |Items(r.0) + Items(r.1)| == |Items(r.0)| + |Items(r.1)|;
  }

  lemma {:induction false} ClearedAfterWrite(
      buckets: seq<seq<Block>>, levels: nat, leaf: nat, n: nat, m: nat, b: seq<Block>)
    requires n <= m < levels && IsTree(buckets, levels) && leaf < Pow2(levels - 1)
    requires P(levels, leaf, m) < |buckets|
    ensures Cleared(buckets[P(levels, leaf, m) := b], levels, leaf, n)
         == Cleared(buckets, levels, leaf, n)[P(levels, leaf, m) := b]
  {
    if n > 0 {
      ClearedAfterWrite(buckets, levels, leaf, n - 1, m, b);
      PathBucketsDiffer(levels, leaf, leaf, n - 1, m);
    }
  }

  /** One bucket of the write-back: what the tree gains is what the bucket took. */
  lemma EvictLevelSum(o: Oram, leaf: nat, n: nat)
    requires 0 < n <= o.levels && Shaped(o) && leaf < Pow2(o.levels - 1)
    ensures var o' := EvictLevel(o, leaf, n - 1);
      var r := Pick(o, leaf, n - 1, o.stash, o.bucketSize);
      && o'.stash == r.1 && Items(r.0) + Items(o'.stash) == Items(o.stash)
      && Sum(Cleared(o'.buckets, o'.levels, leaf, n - 1))
         == Sum(Cleared(o.buckets, o.levels, leaf, n)) + Items(MakeBucket(r.0, o.bucketSize))
  {
    hide Pick, P, MakeBucket, Items, Sum;
    var o' := EvictLevel(o, leaf, n - 1);
    var r := Pick(o, leaf, n - 1, o.stash, o.bucketSize);
    PickConserves(o, leaf, n - 1, o.stash, o.bucketSize);
    LevelOfBucket(o.levels, leaf, n - 1);
    var b := P(o.levels, leaf, n - 1);
    var bucket := MakeBucket(r.0, o.bucketSize);
    var cleared := Cleared(o.buckets, o.levels, leaf, n - 1);
    ClearedAfterWrite(o.buckets, o.levels, leaf, n - 1, n - 1, bucket);
    SumReplace(cleared, b, bucket);
    SumReplace(cleared, b, []);
    EmptyItems();
    Gained(Sum(cleared[b := bucket]), Sum(cleared[b := []]), Items(bucket), Items(cleared[b]), Sum(cleared));
  }

  /** Write-back never duplicates or invents a block, whatever the bucket size. */
  lemma {:induction false} EvictBounded(o: Oram, leaf: nat, n: nat)
    requires n <= o.levels && Shaped(o) && leaf < Pow2(o.levels - 1)
    ensures All(Evict(o, leaf, n)) <= Items(o.stash) + Sum(Cleared(o.buckets, o.levels, leaf, n))
    decreases n
  {
    hide Pick, P, MakeBucket, Items, Sum, EvictLevel;
    if n > 0 {
      var o' := EvictLevel(o, leaf, n - 1);
      EvictLevelSum(o, leaf, n);
      var r := Pick(o, leaf, n - 1, o.stash, o.bucketSize);
      BucketItems(r.0, o.bucketSize);
      EvictBounded(o', leaf, n - 1);
      assert Items(o'.stash) + Items(MakeBucket(r.0, o.bucketSize)) <= Items(o.stash);
    }
  }

  /** A bucket size that the buckets really have, or no more blocks than fit one bucket. */
  predicate Fits(bucketSize: nat, numBlocks: nat) {
    bucketSize <= BUCKET_CAPACITY || numBlocks <= BUCKET_CAPACITY
  }

  /** Write-back loses nothing if buckets have room, or there is not enough to fill one. */
  lemma {:induction false} EvictConserves(o: Oram, leaf: nat, n: nat)
    requires n <= o.levels && Shaped(o) && leaf < Pow2(o.levels - 1) && Fits(o.bucketSize, |Items(o.stash)|)
    ensures All(Evict(o, leaf, n)) == Items(o.stash) + Sum(Cleared(o.buckets, o.levels, leaf, n))
    decreases n
  {
    hide Pick, P, MakeBucket, Items, Sum, EvictLevel;
    if n > 0 {
      var o' := EvictLevel(o, leaf, n - 1);
      EvictLevelSum(o, leaf, n);
      PickedCount(o, leaf, n - 1);
      BucketKeepsPickedIff(o, leaf, n - 1);
      var taken := Pick(o, leaf, n - 1, o.stash, o.bucketSize).0;
      assert |Items(taken) + Items(o'.stash)| == |Items(taken)| + |Items(o'.stash)|;
      EvictConserves(o', leaf, n - 1);
    }
  }

  // ---------------------------------------------------------------- placement

  ghost predicate OnPath(o: Oram, index: int, b: int) {
    && 0 <= index < |o.positionMap|
    && exists l: nat :: l < o.levels && P(o.levels, o.positionMap[index], l) == b
  }

  ghost predicate PathBucket(o: Oram, leaf: nat, n: nat, b: int)
    requires n <= o.levels
  {
    exists l: nat :: l < n && P(o.levels, leaf, l) == b
  }

  /** Each real block of a bucket belongs there, except in the first `n` buckets of a path. */
  ghost predicate PlacedExcept(o: Oram, leaf: nat, n: nat)
    requires n <= o.levels
  {
    forall b, x :: 0 <= b < |o.buckets| && x in o.buckets[b] && x.index != -1 && !PathBucket(o, leaf, n, b)
      ==> OnPath(o, x.index, b)
  }

  ghost predicate Placed(o: Oram) {
    forall b, x :: 0 <= b < |o.buckets| && x in o.buckets[b] && x.index != -1 ==> OnPath(o, x.index, b)
  }

  ghost predicate StashInRange(o: Oram) {
    forall x :: x in o.stash && x.index != -1 ==> 0 <= x.index < |o.positionMap|
  }

  lemma EligibleIsOnPath(o: Oram, o': Oram, leaf: nat, level: nat, x: Block)
    requires level < o.levels && Eligible(o, leaf, level, x) && o'.levels == o.levels && o'.positionMap == o.positionMap
    ensures OnPath(o', x.index, P(o.levels, leaf, level))
  {
  }

  lemma SameOnPath(o: Oram, o': Oram, index: int, b: int)
    requires OnPath(o, index, b) && o'.levels == o.levels && o'.positionMap == o.positionMap
    ensures OnPath(o', index, b)
  {
  }

  lemma EvictLevelPlaces(o: Oram, leaf: nat, n: nat)
    requires 0 < n <= o.levels && Shaped(o) && leaf < Pow2(o.levels - 1)
    requires PlacedExcept(o, leaf, n) && StashInRange(o)
    ensures var o' := EvictLevel(o, leaf, n - 1); PlacedExcept(o', leaf, n - 1) && StashInRange(o')
  {
    hide Pick, P, MakeBucket;
    var o' := EvictLevel(o, leaf, n - 1);
    var r := Pick(o, leaf, n - 1, o.stash, o.bucketSize);
    PickedAreEligible(o, leaf, n - 1, o.stash, o.bucketSize);
    LevelOfBucket(o.levels, leaf, n - 1);
    hide OnPath;
    forall b, x | 0 <= b < |o'.buckets| && x in o'.buckets[b] && x.index != -1 && !PathBucket(o', leaf, n - 1, b)
      ensures OnPath(o', x.index, b)
    {
      if b == P(o.levels, leaf, n - 1) {
        BucketHoldsOnlyPicked(r.0, o.bucketSize, x);
        EligibleIsOnPath(o, o', leaf, n - 1, x);
      } else {
        assert x in o.buckets[b];
        assert !PathBucket(o, leaf, n, b);
        SameOnPath(o, o', x.index, b);
      }
    }
  }

  lemma EvictLevelInRange(o: Oram, leaf: nat, level: nat)
    requires level < o.levels && Shaped(o) && leaf < Pow2(o.levels - 1) && StashInRange(o)
    ensures StashInRange(EvictLevel(o, leaf, level))
  {
    hide P, MakeBucket;
    PickedAreEligible(o, leaf, level, o.stash, o.bucketSize);
  }

  lemma {:induction false} EvictPlaces(o: Oram, leaf: nat, n: nat)
    requires n <= o.levels && Shaped(o) && leaf < Pow2(o.levels - 1)
    requires PlacedExcept(o, leaf, n) && StashInRange(o)
    ensures Placed(Evict(o, leaf, n)) && StashInRange(Evict(o, leaf, n))
    decreases n
  {
    if n > 0 {
      EvictLevelPlaces(o, leaf, n);
      EvictPlaces(EvictLevel(o, leaf, n - 1), leaf, n - 1);
    } else {
      forall b, x | 0 <= b < |o.buckets| && x in o.buckets[b] && x.index != -1
        ensures OnPath(o, x.index, b)
      {
        assert !PathBucket(o, leaf, 0, b);
      }
    }
  }

  lemma {:induction false} PathBlocksInRange(o: Oram, leaf: nat, n: nat)
    requires n <= o.levels && Shaped(o) && leaf < Pow2(o.levels - 1) && Placed(o)
    ensures forall x :: x in PathBlocks(o.buckets, o.levels, leaf, n) ==> 0 <= x.index < |o.positionMap|
  {
    hide P;
    if n > 0 {
      PathBlocksInRange(o, leaf, n - 1);
      LevelOfBucket(o.levels, leaf, n - 1);
      var b := P(o.levels, leaf, n - 1);
      forall x | x in Reals(o.buckets[b])
        ensures 0 <= x.index < |o.positionMap|
      {
        assert OnPath(o, x.index, b);
      }
    }
  }

  // ---------------------------------------------------------------- the memory

  /** No block index is held twice. */
  ghost predicate Distinct(all: multiset<Block>) {
    && (forall x :: x in all ==> all[x] == 1)
    && (forall x, y :: x in all && y in all && x.index == y.index ==> x == y)
  }

  ghost predicate Inv(o: Oram) {
    && Shaped(o)
    && Placed(o)
    && StashInRange(o)
    && Distinct(All(o))
  }

  /** The data stored under an index: all zeros when there is none. */
  ghost predicate Stores(all: multiset<Block>, index: int, data: Data) {
    if exists d :: Block(index, d) in all then Block(index, data) in all else data == ZERO
  }

  /** The blocks after a write. */
  ghost predicate Written(before: multiset<Block>, after: multiset<Block>, index: int, data: Data) {
    if exists d :: Block(index, d) in before
    then exists d :: Block(index, d) in before && after + multiset{Block(index, d)} == before + multiset{Block(index, data)}
    else after == before + multiset{Block(index, data)}
  }

  /** After a path is in the stash, the blocks assigned to its leaf are nowhere else. */
  lemma PathIsInStash(o: Oram, leaf: nat, x: Block)
    requires Shaped(o) && Placed(o) && 0 <= x.index < |o.positionMap| && o.positionMap[x.index] == leaf
    ensures x !in Sum(Cleared(o.buckets, o.levels, leaf, o.levels))
  {
    hide P, Items;
    var cleared := Cleared(o.buckets, o.levels, leaf, o.levels);
    if x in Sum(cleared) {
      var b := SumMember(cleared, x);
      ClearedAt(o.buckets, o.levels, leaf, o.levels, b);
      assert false;
    }
  }

  lemma AccessConserves(o: Oram, op: Operation, index: nat, newLeaf: nat)
    requires Shaped(o) && index < |o.positionMap| && newLeaf < Pow2(o.levels - 1)
    ensures var leaf := o.positionMap[index];
      var stash := Absorb(o, leaf).stash;
      var rest := Sum(Cleared(o.buckets, o.levels, leaf, o.levels));
      var all := Items(Apply(op, stash, index)) + rest;
      && All(o) == Items(stash) + rest
      && All(Access(o, op, index, newLeaf)) <= all
      && (Fits(o.bucketSize, |Items(Apply(op, stash, index))|) ==> All(Access(o, op, index, newLeaf)) == all)
  {
    hide Items, Sum, Evict, Apply, PathBlocks, Reals, Cleared;
    var leaf := o.positionMap[index];
    var o1 := Absorb(Remap(o, index, newLeaf), leaf);
    var o2 := WithStash(o1, Apply(op, o1.stash, index));
    PathBlocksConserve(o.buckets, o.levels, leaf, o.levels);
    ItemsConcat(o.stash, PathBlocks(o.buckets, o.levels, leaf, o.levels));
    EvictBounded(o2, leaf, o.levels);
    if Fits(o2.bucketSize, |Items(o2.stash)|) {
      EvictConserves(o2, leaf, o.levels);
    }
    ItemsOfReals(Evict(o2, leaf, o.levels).stash);
  }

  lemma PutInRange(stash: seq<Block>, index: nat, data: Data, n: nat)
    requires index < n && forall x :: x in stash && x.index != -1 ==> 0 <= x.index < n
    ensures forall x :: x in Put(stash, index, data) && x.index != -1 ==> 0 <= x.index < n
  {
  }

  lemma AbsorbInRange(o: Oram, leaf: nat)
    requires Shaped(o) && leaf < Pow2(o.levels - 1) && Placed(o) && StashInRange(o)
    ensures StashInRange(Absorb(o, leaf))
  {
    hide Placed, Shaped;
    PathBlocksInRange(o, leaf, o.levels);
  }

  /** Moving a block to another leaf is sound while its old path is being rewritten. */
  lemma RemapKeepsPlaced(o: Oram, index: nat, newLeaf: nat, stash: seq<Block>)
    requires Shaped(o) && Placed(o) && index < |o.positionMap| && newLeaf < Pow2(o.levels - 1)
    ensures PlacedExcept(WithStash(Remap(o, index, newLeaf), stash), o.positionMap[index], o.levels)
  {
    hide P, Shaped;
    var leaf := o.positionMap[index];
    var o1 := WithStash(Remap(o, index, newLeaf), stash);
    forall b, x | 0 <= b < |o1.buckets| && x in o1.buckets[b] && x.index != -1 && !PathBucket(o1, leaf, o.levels, b)
      ensures OnPath(o1, x.index, b)
    {
      assert OnPath(o, x.index, b);
      var l: nat :| l < o.levels && P(o.levels, o.positionMap[x.index], l) == b;
      assert x.index != index;
      assert o1.positionMap[x.index] == o.positionMap[x.index];
    }
  }

  lemma AccessStashInRange(o: Oram, op: Operation, index: nat, newLeaf: nat)
    requires Inv(o) && index < |o.positionMap| && newLeaf < Pow2(o.levels - 1)
    ensures var o1 := Absorb(Remap(o, index, newLeaf), o.positionMap[index]);
      StashInRange(WithStash(o1, Apply(op, o1.stash, index)))
  {
    hide PathBlocks, Put, Distinct, All, Placed;
    AbsorbInRange(o, o.positionMap[index]);
    if op.Write? {
      PutInRange(Absorb(o, o.positionMap[index]).stash, index, op.data, |o.positionMap|);
    }
  }

  lemma AccessPlaces(o: Oram, op: Operation, index: nat, newLeaf: nat)
    requires Inv(o) && index < |o.positionMap| && newLeaf < Pow2(o.levels - 1)
    ensures Placed(Access(o, op, index, newLeaf)) && StashInRange(Access(o, op, index, newLeaf))
  {
    hide PathBlocks, Evict, Put, Distinct, All, P, PlacedExcept;
    var leaf := o.positionMap[index];
    var o1 := Absorb(Remap(o, index, newLeaf), leaf);
    var stash := Apply(op, o1.stash, index);
    var o2 := WithStash(o1, stash);
    AccessStashInRange(o, op, index, newLeaf);
    RemapKeepsPlaced(o, index, newLeaf, stash);
    assert o2 == WithStash(Remap(o, index, newLeaf), stash);
    EvictPlaces(o2, leaf, o.levels);
    var o3 := Evict(o2, leaf, o.levels);
    KeepingRealsPlaces(o3);
  }

  lemma KeepingRealsPlaces(o: Oram)
    requires Placed(o) && StashInRange(o)
    ensures Placed(WithStash(o, Reals(o.stash))) && StashInRange(WithStash(o, Reals(o.stash)))
  {
    hide P;
    var o' := WithStash(o, Reals(o.stash));
    forall b, x | 0 <= b < |o'.buckets| && x in o'.buckets[b] && x.index != -1
      ensures OnPath(o', x.index, b)
    {
      assert OnPath(o, x.index, b);
    }
  }

  lemma PutWrites(stash: seq<Block>, index: nat, data: Data)
    ensures Written(Items(stash), Items(Put(stash, index, data)), index, data)
  {
    hide FindLast, Items;
    var t := FindLast(stash, index);
    var x := Block(index, data);
    if t < 0 {
      forall d
        ensures Block(index, d) !in Items(stash)
      {
        ItemsMember(stash, Block(index, d));
      }
      ItemsConcat(stash, [x]);
      ItemsOfOne(x);
    } else {
      ItemsMember(stash, stash[t]);
      ItemsReplace(stash, t, x);
      assert stash[t] == Block(index, stash[t].data);
    }
  }

  lemma GetReads(stash: seq<Block>, index: nat)
    ensures Stores(Items(stash), index, Get(stash, index))
  {
    hide FindLast, Items;
    var t := FindLast(stash, index);
    if t < 0 {
      forall d
        ensures Block(index, d) !in Items(stash)
      {
        ItemsMember(stash, Block(index, d));
      }
    } else {
      ItemsMember(stash, stash[t]);
      assert stash[t] == Block(index, stash[t].data);
    }
  }

  lemma WrittenFrame(before: multiset<Block>, after: multiset<Block>, rest: multiset<Block>, index: nat, data: Data)
    requires Written(before, after, index, data) && forall d :: Block(index, d) !in rest
    ensures Written(before + rest, after + rest, index, data)
  {
    if d :| Block(index, d) in before {
      var e :| Block(index, e) in before && after + multiset{Block(index, e)} == before + multiset{Block(index, data)};
      assert Block(index, e) in before + rest;
      Interchange(after, rest, multiset{Block(index, e)}, before, multiset{Block(index, data)});
    } else {
      Interchange(after, rest, multiset{}, before, multiset{Block(index, data)});
    }
  }

  lemma StoresFrame(all: multiset<Block>, rest: multiset<Block>, index: nat, data: Data)
    requires Stores(all, index, data) && forall d :: Block(index, d) !in rest
    ensures Stores(all + rest, index, data)
  {
    if d :| Block(index, d) in all {
      assert Block(index, d) in all + rest;
    }
  }

  /** A write keeps indices distinct, stores its data, and changes no other index. */
  lemma WriteIsAssignment(before: multiset<Block>, after: multiset<Block>, index: nat, data: Data)
    requires Distinct(before) && Written(before, after, index, data)
    ensures Distinct(after)
    ensures forall d :: Block(index, d) in after <==> d == data
    ensures forall x: Block :: x.index != index ==> (x in after <==> x in before)
  {
    var x := Block(index, data);
    if d :| Block(index, d) in before {
      var e :| Block(index, e) in before && after + multiset{Block(index, e)} == before + multiset{x};
      var y := Block(index, e);
      forall z
        ensures after[z] == (if z == x then 1 else if z == y then 0 else before[z])
      {
        assert (after + multiset{y})[z] == (before + multiset{x})[z];
      }
    } else {
      forall z
        ensures after[z] == (if z == x then 1 else before[z])
      {
        assert after[z] == (before + multiset{x})[z];
        if z == x {
          assert z !in before;
        }
      }
    }
  }

  /** How many real blocks the stash holds when the access starts to write back. */
  ghost function Carried(o: Oram, op: Operation, index: nat): (n: nat)
    requires Shaped(o) && index < |o.positionMap|
  {
    |Items(Apply(op, Absorb(o, o.positionMap[index]).stash, index))|
  }

  lemma DistinctPart(part: multiset<Block>, all: multiset<Block>)
    requires part <= all && Distinct(all)
    ensures Distinct(part)
  {
    forall x | x in part
      ensures part[x] == 1
    {
      assert part[x] <= all[x];
    }
  }

  /** Distinct blocks with indices below `n` are at most `n`. */
  lemma {:induction false} DistinctBound(all: multiset<Block>, n: nat)
    requires Distinct(all) && forall x :: x in all ==> 0 <= x.index < n
    ensures |all| <= n
  {
    if n == 0 {
      assert forall x: Block :: x !in all;
      assert all == multiset{};
    } else if x :| x in all && x.index == n - 1 {
      var less := all - multiset{x};
      assert all == less + multiset{x};
      assert forall y :: y in less ==> y in all && y != x;
      DistinctPart(less, all);
      DistinctBound(less, n - 1);
    } else {
      DistinctBound(all, n - 1);
    }
  }

  lemma ItemsInRange(o: Oram, x: Block)
    requires Placed(o) && StashInRange(o) && x in All(o)
    ensures 0 <= x.index < |o.positionMap|
  {
    hide P;
    if x in Items(o.stash) {
      ItemsMember(o.stash, x);
    } else {
      var b := SumMember(o.buckets, x);
      assert OnPath(o, x.index, b);
    }
  }

  /** What the operation makes of all blocks before the write-back. */
  lemma ApplyIsMemory(o: Oram, op: Operation, index: nat)
    requires Inv(o) && index < |o.positionMap|
    ensures var leaf := o.positionMap[index];
      var stash := Absorb(o, leaf).stash;
      var rest := Sum(Cleared(o.buckets, o.levels, leaf, o.levels));
      var all := Items(Apply(op, stash, index)) + rest;
      && Distinct(all) && |Items(Apply(op, stash, index))| <= |all|
      && (op.Read? ==> all == All(o) && Stores(All(o), index, Answer(o, op, index)))
      && (op.Write? ==> Written(All(o), all, index, op.data))
  {
    hide All, Items, Sum, Placed, StashInRange, Stores, Written, Distinct, Put, Get, Access, Absorb, Cleared;
    var leaf := o.positionMap[index];
    var stash := Absorb(o, leaf).stash;
    var rest := Sum(Cleared(o.buckets, o.levels, leaf, o.levels));
    AccessConserves(o, op, index, leaf);
    forall d
      ensures Block(index, d) !in rest
    {
      PathIsInStash(o, leaf, Block(index, d));
    }
    if op.Write? {
      PutWrites(stash, index, op.data);
      WrittenFrame(Items(stash), Items(Put(stash, index, op.data)), rest, index, op.data);
      WriteIsAssignment(All(o), Items(Apply(op, stash, index)) + rest, index, op.data);
    } else {
      GetReads(stash, index);
      StoresFrame(Items(stash), rest, index, Get(stash, index));
    }
  }

  /** A tree of few blocks never carries many. */
  lemma CarriedBelow(o: Oram, op: Operation, index: nat, n: nat)
    requires Inv(o) && index < |o.positionMap| && index < n
    requires forall x :: x in All(o) ==> 0 <= x.index < n
    ensures Carried(o, op, index) <= n
  {
    hide All, Items, Sum, Distinct, Written, Stores, Placed, StashInRange, Apply, Absorb, Cleared, Answer;
    ApplyIsMemory(o, op, index);
    var leaf := o.positionMap[index];
    var all := Items(Apply(op, Absorb(o, leaf).stash, index)) + Sum(Cleared(o.buckets, o.levels, leaf, o.levels));
    if op.Write? {
      WriteIsAssignment(All(o), all, index, op.data);
    }
    forall x | x in all
      ensures 0 <= x.index < n
    {
      assert x.index != index ==> x in All(o);
    }
    DistinctBound(all, n);
  }

  lemma CarriedBound(o: Oram, op: Operation, index: nat)
    requires Inv(o) && index < |o.positionMap|
    ensures Carried(o, op, index) <= |o.positionMap|
  {
    forall x | x in All(o)
      ensures 0 <= x.index < |o.positionMap|
    {
      ItemsInRange(o, x);
    }
    CarriedBelow(o, op, index, |o.positionMap|);
  }

  /** One access keeps the invariant, whatever the bucket size, and READ returns what is stored.
      If buckets have room or the stash holds no more than one bucket, the access does to the
      stored blocks exactly what its operation says. */
  lemma AccessIsMemory(o: Oram, op: Operation, index: nat, newLeaf: nat)
    requires Inv(o) && index < |o.positionMap| && newLeaf < Pow2(o.levels - 1)
    ensures Inv(Access(o, op, index, newLeaf))
    ensures op.Read? ==> Stores(All(o), index, Answer(o, op, index))
    ensures Fits(o.bucketSize, Carried(o, op, index)) ==>
      && (op.Read? ==> All(Access(o, op, index, newLeaf)) == All(o))
      && (op.Write? ==> Written(All(o), All(Access(o, op, index, newLeaf)), index, op.data))
  {
    hide All, Items, Sum, Placed, StashInRange, Stores, Written, Distinct, Apply, Access, Absorb, Cleared, Answer;
    AccessConserves(o, op, index, newLeaf);
    AccessPlaces(o, op, index, newLeaf);
    ApplyIsMemory(o, op, index);
    var leaf := o.positionMap[index];
    DistinctPart(All(Access(o, op, index, newLeaf)),
      Items(Apply(op, Absorb(o, leaf).stash, index)) + Sum(Cleared(o.buckets, o.levels, leaf, o.levels)));
  }

  // ---------------------------------------------------------------- runs

  /** One call of access, with the leaf that is drawn for it. */
  datatype Request = Request(op: Operation, index: nat, newLeaf: nat)

  predicate Legal(levels: nat, numBlocks: nat, q: Request) {
    levels > 0 && q.index < numBlocks && q.newLeaf < Pow2(levels - 1)
  }

  predicate AllLegal(levels: nat, numBlocks: nat, requests: seq<Request>) {
    forall i :: 0 <= i < |requests| ==> Legal(levels, numBlocks, requests[i])
  }

  /** The state after one request. */
  function Next(o: Oram, q: Request): (r: Oram)
    requires Shaped(o) && Legal(o.levels, |o.positionMap|, q)
    ensures Shaped(r) && r.levels == o.levels && |r.positionMap| == |o.positionMap|
  {
    Access(o, q.op, q.index, q.newLeaf)
  }

  function Answers(o: Oram, requests: seq<Request>): (r: seq<Data>)
    requires Shaped(o) && AllLegal(o.levels, |o.positionMap|, requests)
    decreases |requests|
  {
    if requests == [] then []
    else
      assert Legal(o.levels, |o.positionMap|, requests[0]);
      [Answer(o, requests[0].op, requests[0].index)] + Answers(Next(o, requests[0]), requests[1..])
  }

  /** The same requests on an ordinary memory, which has no leaves. */
  function FlatAnswers(memory: map<nat, Data>, requests: seq<Request>): (r: seq<Data>)
    decreases |requests|
  {
    if requests == [] then []
    else match requests[0].op
      case Read =>
        [if requests[0].index in memory then memory[requests[0].index] else ZERO]
        + FlatAnswers(memory, requests[1..])
      case Write(data) =>
        [ZERO] + FlatAnswers(memory[requests[0].index := data], requests[1..])
  }

  ghost predicate Represents(all: multiset<Block>, memory: map<nat, Data>) {
    forall i: nat, d: Data :: Block(i, d) in all <==> i in memory && memory[i] == d
  }

  lemma WriteRepresents(before: multiset<Block>, after: multiset<Block>, memory: map<nat, Data>, index: nat, data: Data)
    requires Distinct(before) && Written(before, after, index, data) && Represents(before, memory)
    ensures Represents(after, memory[index := data])
  {
    WriteIsAssignment(before, after, index, data);
    var memory' := memory[index := data];
    forall i: nat, d: Data
      ensures Block(i, d) in after <==> i in memory' && memory'[i] == d
    {
      assert Block(i, d) in before <==> i in memory && memory[i] == d;
    }
  }

  lemma ReadRepresents(all: multiset<Block>, memory: map<nat, Data>, index: nat, data: Data)
    requires Represents(all, memory) && Stores(all, index, data)
    ensures data == if index in memory then memory[index] else ZERO
  {
    if index in memory {
      assert Block(index, memory[index]) in all;
    } else {
      forall d: Data
        ensures Block(index, d) !in all
      {
      }
    }
  }

  /** Every run of the ORAM answers as the flat memory does, whatever leaves are drawn. */
  lemma {:induction false} RunsAsFlatMemory(o: Oram, memory: map<nat, Data>, requests: seq<Request>)
    requires Inv(o) && Fits(o.bucketSize, |o.positionMap|)
    requires Represents(All(o), memory) && AllLegal(o.levels, |o.positionMap|, requests)
    ensures Answers(o, requests) == FlatAnswers(memory, requests)
    decreases |requests|
  {
    hide All, Represents, Stores, Written, Distinct, Answer, Access, Placed, StashInRange, Carried;
    if requests != [] {
      var q := requests[0];
      var o' := Access(o, q.op, q.index, q.newLeaf);
      AccessIsMemory(o, q.op, q.index, q.newLeaf);
      CarriedBound(o, q.op, q.index);
      match q.op {
        case Read =>
          ReadRepresents(All(o), memory, q.index, Answer(o, q.op, q.index));
          RunsAsFlatMemory(o', memory, requests[1..]);
        case Write(data) =>
          WriteRepresents(All(o), All(o'), memory, q.index, data);
          RunsAsFlatMemory(o', memory[q.index := data], requests[1..]);
          assert Answer(o, q.op, q.index) == ZERO by { WritesAnswerZero(o, q.op, q.index); }
      }
    }
  }

  lemma WritesAnswerZero(o: Oram, op: Operation, index: nat)
    requires Shaped(o) && index < |o.positionMap| && op.Write?
    ensures Answer(o, op, index) == ZERO
  {
  }

  // ---------------------------------------------------------------- the first state

  /** Only dummies in the tree, nothing in the stash. */
  ghost predicate IsInitial(o: Oram) {
    && Shaped(o)
    && o.stash == []
    && forall b, x :: 0 <= b < |o.buckets| && x in o.buckets[b] ==> x.index == -1
  }

  lemma InitialIsEmpty(o: Oram)
    requires IsInitial(o)
    ensures All(o) == multiset{} && Represents(All(o), map[])
    ensures Inv(o)
  {
    if x :| x in Sum(o.buckets) {
      var b := SumMember(o.buckets, x);
    }
  }

  /** From the first state, a READ returns what was last written and the draw of leaves is
      never visible in an answer. */
  lemma EveryRunIsFlatMemory(o: Oram, requests: seq<Request>)
    requires IsInitial(o) && Fits(o.bucketSize, |o.positionMap|) && AllLegal(o.levels, |o.positionMap|, requests)
    ensures Answers(o, requests) == FlatAnswers(map[], requests)
  {
    InitialIsEmpty(o);
    RunsAsFlatMemory(o, map[], requests);
  }
}
