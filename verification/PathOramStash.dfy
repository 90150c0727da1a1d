/** Write-back is greedy: a block stays in the stash, or nearer the root than it could be, only if
    every deeper bucket that it may lie in is full. */
module PathOramStash {
  import opened PathOrams

  predicate Full(bucket: seq<Block>, bucketSize: nat) {
    |Reals(bucket)| == if bucketSize <= 4 then bucketSize else 4
  }

  lemma {:induction false} RealsOfReal(s: seq<Block>)
    requires forall x :: x in s ==> x.index != -1
    ensures |Reals(s)| == |s|
  {
    if s != [] {
      assert forall x :: x in s[..|s| - 1] ==> x in s;
      assert s[|s| - 1] in s;
      RealsOfReal(s[..|s| - 1]);
    }
  }

  // ---------------------------------------------------------------- one level

  lemma {:induction false} PickedAreReal(o: Oram, leaf: nat, level: nat, stash: seq<Block>, room: nat, x: Block)
    requires level < o.levels && x in Pick(o, leaf, level, stash, room).0
    ensures x in stash && x.index != -1
  {
    var n := |stash| - 1;
    var r := Pick(o, leaf, level, stash[..n], room);
    hide P;
    if x in r.0 {
      PickedAreReal(o, leaf, level, stash[..n], room, x);
    } else {
      assert x == stash[n];
    }
  }

  /** A real block left behind was in the stash, and if it was eligible there was no room. */
  lemma {:induction false} PickIsGreedy(o: Oram, leaf: nat, level: nat, stash: seq<Block>, room: nat, b: Block)
    requires level < o.levels && b.index >= 0 && b in Pick(o, leaf, level, stash, room).1
    ensures b in stash
    ensures Eligible(o, leaf, level, b) ==> |Pick(o, leaf, level, stash, room).0| == room
  {
    var n := |stash| - 1;
    var r := Pick(o, leaf, level, stash[..n], room);
    hide P;
    if b in r.1 {
      PickIsGreedy(o, leaf, level, stash[..n], room, b);
    } else {
      assert b == stash[n];
    }
  }

  /** A bucket that was offered as many blocks as its size is full. */
  lemma OfferedIsFull(taken: seq<Block>, bucketSize: nat)
    requires |taken| == bucketSize && forall x :: x in taken ==> x.index != -1
    ensures Full(MakeBucket(taken, bucketSize), bucketSize)
  {
    assert taken + Dummies(0) == taken;
    if bucketSize <= BUCKET_CAPACITY {
      RealsOfReal(taken);
    } else {
      var kept := taken[..BUCKET_CAPACITY];
      assert forall x :: x in kept ==> x in taken;
      RealsOfReal(kept);
    }
  }

  lemma HeldWasOffered(taken: seq<Block>, bucketSize: nat, b: Block)
    requires |taken| <= bucketSize && b in MakeBucket(taken, bucketSize) && b.index >= 0
    ensures b in taken
  {
    var offered := taken + Dummies(bucketSize - |taken|);
    assert b in offered;
    var i :| 0 <= i < |offered| && offered[i] == b;
    assert i < |taken|;
  }

  /** Write-back of one level: what is in its bucket came from the stash, and what is left in the
      stash could not lie in it or did not fit. */
  lemma LevelIsGreedy(o: Oram, leaf: nat, level: nat, b: Block)
    requires level < o.levels && Shaped(o) && leaf < Pow2(o.levels - 1) && b.index >= 0
    ensures var r, i := EvictLevel(o, leaf, level), P(o.levels, leaf, level);
      && i < |o.buckets| == |r.buckets|
      && (b in r.buckets[i] ==> b in o.stash)
      && (b in r.stash ==> b in o.stash && (Eligible(o, leaf, level, b) ==> Full(r.buckets[i], o.bucketSize)))
      && (forall j :: 0 <= j < |o.buckets| && j != i ==> r.buckets[j] == o.buckets[j])
  {
    LevelOfBucket(o.levels, leaf, level);
    var r, i := EvictLevel(o, leaf, level), P(o.levels, leaf, level);
    var picked := Pick(o, leaf, level, o.stash, o.bucketSize);
    assert r.buckets[i] == MakeBucket(picked.0, o.bucketSize) && r.stash == picked.1;
    hide Pick, MakeBucket, EvictLevel, Full, Eligible, Shaped, P;
    if b in r.buckets[i] {
      HeldWasOffered(picked.0, o.bucketSize, b);
      PickedAreReal(o, leaf, level, o.stash, o.bucketSize, b);
    }
    if b in r.stash {
      PickIsGreedy(o, leaf, level, o.stash, o.bucketSize, b);
      if Eligible(o, leaf, level, b) {
        forall x | x in picked.0
          ensures x.index != -1
        {
          PickedAreReal(o, leaf, level, o.stash, o.bucketSize, x);
        }
        OfferedIsFull(picked.0, o.bucketSize);
      }
    }
  }

  // ---------------------------------------------------------------- a whole path

  /** The block is in the stash, or in a bucket of the path above `level`. */
  ghost predicate Above(o: Oram, leaf: nat, level: nat, b: Block)
    requires level < o.levels
  {
    b in o.stash || exists l :: 0 <= l < level && InBucket(o, leaf, l, b)
  }

  predicate InBucket(o: Oram, leaf: nat, level: nat, b: Block)
    requires level < o.levels
  {
    P(o.levels, leaf, level) < |o.buckets| && b in o.buckets[P(o.levels, leaf, level)]
  }

  /** Write-back of the levels below `n` leaves the deeper buckets of the path alone. */
  lemma {:induction false} EvictLeavesDeeper(o: Oram, leaf: nat, n: nat, level: nat)
    requires n <= level < o.levels && Shaped(o) && leaf < Pow2(o.levels - 1)
    ensures P(o.levels, leaf, level) < |o.buckets| == |Evict(o, leaf, n).buckets|
    ensures Evict(o, leaf, n).buckets[P(o.levels, leaf, level)] == o.buckets[P(o.levels, leaf, level)]
    decreases n
  {
    LevelOfBucket(o.levels, leaf, level);
    if n > 0 {
      LevelIsGreedy(o, leaf, n - 1, Block(0, []));
      PathBucketsDiffer(o.levels, leaf, leaf, n - 1, level);
      hide EvictLevel, P, Pow2;
      EvictLeavesDeeper(EvictLevel(o, leaf, n - 1), leaf, n - 1, level);
    }
  }

  /** Whatever ends up in the stash or in a bucket written was in the stash before. */
  lemma {:induction false} FromStash(o: Oram, leaf: nat, n: nat, b: Block)
    requires n < o.levels && Shaped(o) && leaf < Pow2(o.levels - 1)
    requires b.index >= 0 && Above(Evict(o, leaf, n), leaf, n, b)
    ensures b in o.stash
    decreases n
  {
    hide EvictLevel, P, Pow2, Shaped;
    if n > 0 {
      var o1, r := EvictLevel(o, leaf, n - 1), Evict(o, leaf, n);
      LevelIsGreedy(o, leaf, n - 1, b);
      EvictLeavesDeeper(o1, leaf, n - 1, n - 1);
      if InBucket(r, leaf, n - 1, b) {
      } else {
        assert Above(r, leaf, n - 1, b);
        FromStash(o1, leaf, n - 1, b);
      }
    }
  }

  /** The bucket of the path at `level` is full. */
  predicate FullAt(o: Oram, leaf: nat, level: nat)
    requires level < o.levels
  {
    P(o.levels, leaf, level) < |o.buckets| && Full(o.buckets[P(o.levels, leaf, level)], o.bucketSize)
  }

  lemma {:induction false} EvictIsGreedy(o: Oram, leaf: nat, n: nat, level: nat, b: Block)
    requires level < n <= o.levels && Shaped(o) && leaf < Pow2(o.levels - 1)
    requires b.index >= 0 && Eligible(o, leaf, level, b) && Above(Evict(o, leaf, n), leaf, level, b)
    ensures FullAt(Evict(o, leaf, n), leaf, level)
    decreases n
  {
    hide EvictLevel, P, Pow2, Shaped, Full, Above;
    var o1, r := EvictLevel(o, leaf, n - 1), Evict(o, leaf, n);
    assert r == Evict(o1, leaf, n - 1);
    hide Evict;
    LevelIsGreedy(o, leaf, n - 1, b);
    if level < n - 1 {
      EvictIsGreedy(o1, leaf, n - 1, level, b);
    } else {
      FromStash(o1, leaf, n - 1, b);
      EvictLeavesDeeper(o1, leaf, n - 1, level);
    }
  }

  lemma AboveBefore(r: Oram, e: Oram, leaf: nat, level: nat, b: Block)
    requires r == e.(stash := r.stash) && (forall x :: x in r.stash ==> x in e.stash)
    requires level < r.levels && Above(r, leaf, level, b)
    ensures Above(e, leaf, level, b)
  {
    if b !in r.stash {
      var l :| 0 <= l < level && InBucket(r, leaf, l, b);
      assert InBucket(e, leaf, l, b);
    }
  }

  /** The write-back of an access, and what is left in the stash afterwards. */
  lemma AccessEvicts(o: Oram, op: Operation, index: nat, newLeaf: nat) returns (start: Oram)
    requires Shaped(o) && index < |o.positionMap| && newLeaf < Pow2(o.levels - 1)
    ensures Shaped(start) && start.levels == o.levels && start.positionMap == o.positionMap[index := newLeaf]
    ensures o.positionMap[index] < Pow2(o.levels - 1)
    ensures var r, e := Access(o, op, index, newLeaf), Evict(start, o.positionMap[index], o.levels);
      r == e.(stash := r.stash) && forall x :: x in r.stash ==> x in e.stash
  {
    var o1 := Absorb(Remap(o, index, newLeaf), o.positionMap[index]);
    start := WithStash(o1, Apply(op, o1.stash, index));
  }

  /** After every access the accessed block alone has a new leaf, the one drawn, and a block that is
      not as deep as its leaf allows on the path just written is kept up by full buckets. */
  lemma AccessIsGreedy(o: Oram, op: Operation, index: nat, newLeaf: nat, level: nat, b: Block)
    requires Shaped(o) && index < |o.positionMap| && newLeaf < Pow2(o.levels - 1) && level < o.levels
    ensures var r, leaf := Access(o, op, index, newLeaf), o.positionMap[index];
      && r.positionMap == o.positionMap[index := newLeaf]
      && (b.index >= 0 && Eligible(r, leaf, level, b) && Above(r, leaf, level, b) ==> FullAt(r, leaf, level))
  {
    hide Access, Evict, P, Full, Pow2, Shaped;
    var r, leaf := Access(o, op, index, newLeaf), o.positionMap[index];
    var start := AccessEvicts(o, op, index, newLeaf);
    if b.index >= 0 && Eligible(r, leaf, level, b) && Above(r, leaf, level, b) {
      AboveBefore(r, Evict(start, leaf, o.levels), leaf, level, b);
      EvictIsGreedy(start, leaf, o.levels, level, b);
    }
  }

  /** In particular nothing is left in the stash while the root has room. */
  lemma StashOnlyUnderFullRoot(o: Oram, op: Operation, index: nat, newLeaf: nat, b: Block)
    requires Shaped(o) && index < |o.positionMap| && newLeaf < Pow2(o.levels - 1)
    ensures var r := Access(o, op, index, newLeaf);
      b in r.stash && 0 <= b.index < |r.positionMap| ==> |r.buckets| > 0 && Full(r.buckets[0], o.bucketSize)
  {
    hide Access, P, Pow2, Full, Reals;
    var r, leaf := Access(o, op, index, newLeaf), o.positionMap[index];
    AccessIsGreedy(o, op, index, newLeaf, 0, b);
    PathGoesDownTheTree(o.levels, leaf, 0);
    if b in r.stash && 0 <= b.index < |r.positionMap| {
      PathGoesDownTheTree(o.levels, r.positionMap[b.index], 0);
      assert Eligible(r, leaf, 0, b) && Above(r, leaf, 0, b);
    }
  }
}
