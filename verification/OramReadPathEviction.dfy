/** The Path ORAM client object: its arrays and loops, proved against the value model. */
module OramClients {
  import opened Basics
  import opened PathOrams
  import M = PathOramMemory
  import B = PathOramBuckets

  /** ceil(log2(n)): the least depth at which the leaves are as many as the blocks. */
  function CeilLog2(n: nat): (k: nat)
    ensures n <= Pow2(k) && (k > 0 ==> Pow2(k - 1) < n)
  {
    if n <= 1 then 0 else 1 + CeilLog2((n + 1) / 2)
  }

  function NumLevels(numBlocks: nat): (levels: nat)
    ensures levels > 0
  {
    CeilLog2(numBlocks) + 1
  }

  /** The constructor's space check cannot fail for a positive bucket size. */
  lemma EnoughSpace(bucketSize: nat, numBlocks: nat)
    requires bucketSize > 0
    ensures numBlocks <= (Pow2(NumLevels(numBlocks)) - 1) * bucketSize
  {
    var k := CeilLog2(numBlocks);
    assert Pow2(k + 1) == 2 * Pow2(k);
    Scale(numBlocks, Pow2(k + 1) - 1, bucketSize);
  }

  lemma Scale(a: nat, n: nat, bucketSize: nat)
    requires a <= n && bucketSize > 0
    ensures a <= n * bucketSize
  {
    assert n * bucketSize == n + n * (bucketSize - 1);
  }

  lemma {:induction false} RealsOfPrefix(s: seq<Block>, i: nat)
    requires i < |s|
    ensures Reals(s[..i + 1]) == Reals(s[..i]) + if s[i].index != -1 then [s[i]] else []
  {
    assert s[..i + 1][..i] == s[..i];
  }

  class OramReadPathEviction {
    const levels: nat
    const bucketSize: nat
    const positionMap: array<nat>
    const storage: array<seq<Block>>
    var stash: seq<Block>

    ghost function State(): (o: Oram)
      reads this, positionMap, storage
    {
      Oram(levels, bucketSize, positionMap[..], storage[..], stash)
    }

    ghost predicate Valid()
      reads this, positionMap, storage
    {
      M.Inv(State())
    }

    /** Every block starts unwritten; `leaves` are the drawn initial positions.  All runs answer
        as a flat memory exactly if the bucket size is at most 4 or there are at most 4 blocks. */
    constructor (bucketSize: nat, numBlocks: nat, leaves: seq<nat>)
      requires 0 < bucketSize && 0 < numBlocks == |leaves|
      requires forall i :: 0 <= i < |leaves| ==> leaves[i] < Pow2(NumLevels(numBlocks) - 1)
      ensures this.levels == NumLevels(numBlocks) && this.bucketSize == bucketSize
      ensures fresh(positionMap) && fresh(storage) && positionMap[..] == leaves
      ensures M.IsInitial(State()) && Valid()
      ensures B.IsMemory(State()) <==> M.Fits(bucketSize, numBlocks)
    {
      var positions := new nat[|leaves|](i requires 0 <= i < |leaves| => leaves[i]);
      var buckets := new seq<Block>[Pow2(NumLevels(numBlocks)) - 1](_ => MakeBucket([], bucketSize));
      this.levels := NumLevels(numBlocks);
      this.bucketSize := bucketSize;
      this.positionMap := positions;
      this.storage := buckets;
      this.stash := [];
      new;
      assert positionMap[..] == leaves;
      hide M.Inv, B.IsMemory;
      M.InitialIsEmpty(State());
      B.IsMemoryIff(State());
    }

    /** Pull every real block of one bucket into the stash. */
    method ReadBucket(b: nat)
      requires b < storage.Length
      modifies this`stash
      ensures stash == old(stash) + Reals(storage[b])
    {
      var blocks := storage[b];
      for i := 0 to |blocks|
        invariant stash == old(stash) + Reals(blocks[..i])
      {
        RealsOfPrefix(blocks, i);
        if blocks[i].index != -1 {
          stash := stash + [blocks[i]];
        }
      }
      assert blocks[..|blocks|] == blocks;
    }

    method ReadPath(leaf: nat)
      requires IsTree(storage[..], levels) && leaf < Pow2(levels - 1)
      modifies this`stash
      ensures stash == old(stash) + PathBlocks(storage[..], levels, leaf, levels)
    {
      hide Reals, P;
      for i := 0 to levels
        invariant stash == old(stash) + PathBlocks(storage[..], levels, leaf, i)
      {
        LevelOfBucket(levels, leaf, i);
        ReadBucket(P(levels, leaf, i));
      }
    }

    /** Scan the whole stash; a later match replaces an earlier one. */
    method FindTarget(index: int) returns (target: int)
      ensures target == FindLast(stash, index)
    {
      target := -1;
      for i := 0 to |stash|
        invariant target == FindLast(stash[..i], index)
      {
        assert stash[..i + 1][..i] == stash[..i];
        if stash[i].index == index {
          target := i;
        }
      }
      assert stash[..|stash|] == stash;
    }

    /** Fill one bucket from the stash, marking what was taken. */
    method TakeForBucket(leaf: nat, level: nat) returns (taken: seq<Block>)
      requires level < levels && M.StashInRange(State())
      modifies this`stash
      ensures |taken| <= bucketSize
      ensures (taken, stash) == Pick(old(State()), leaf, level, old(stash), bucketSize)
    {
      hide P;
      ghost var o := State();
      taken := [];
      for i := 0 to |stash|
        invariant |stash| == |o.stash| && stash[i..] == o.stash[i..]
        invariant (taken, stash[..i]) == Pick(o, leaf, level, o.stash[..i], bucketSize)
      {
        var x := stash[i];
        assert x == o.stash[i];
        assert o.stash[..i + 1][..i] == o.stash[..i];
        var take := x.index != -1 && P(levels, positionMap[x.index], level) == P(levels, leaf, level)
                    && |taken| < bucketSize;
        assert take <==> Eligible(o, leaf, level, x) && |taken| < bucketSize;
        ghost var before := stash[..i];
        if take {
          taken := taken + [x];
          stash := stash[i := Block(-1, x.data)];
        }
        assert stash[..i + 1] == before + [stash[i]];
      }
      assert o.stash[..|o.stash|] == o.stash && stash[..|stash|] == stash;
    }

    /** addBlock on a fresh bucket, `bucketSize` times. */
    method BuildBucket(taken: seq<Block>) returns (bucket: seq<Block>)
      requires |taken| <= bucketSize
      ensures bucket == MakeBucket(taken, bucketSize)
    {
      bucket := [];
      var slots := taken + Dummies(bucketSize - |taken|);
      for j := 0 to bucketSize
        invariant bucket == slots[..if j <= BUCKET_CAPACITY then j else BUCKET_CAPACITY]
      {
        if |bucket| < BUCKET_CAPACITY {
          bucket := bucket + [slots[j]];
        }
      }
    }

    method EvictBucket(leaf: nat, level: nat)
      requires level < levels && Shaped(State()) && leaf < Pow2(levels - 1) && M.StashInRange(State())
      modifies this`stash, storage
      ensures State() == EvictLevel(old(State()), leaf, level)
    {
      hide P, Pick, MakeBucket, M.StashInRange;
      var taken := TakeForBucket(leaf, level);
      var bucket := BuildBucket(taken);
      LevelOfBucket(levels, leaf, level);
      storage[P(levels, leaf, level)] := bucket;
      assert storage[..] == old(storage[..])[P(levels, leaf, level) := bucket];
    }

    /** Write back along the path, deepest level first. */
    method EvictPath(leaf: nat)
      requires Shaped(State()) && leaf < Pow2(levels - 1) && M.StashInRange(State())
      modifies this`stash, storage
      ensures State() == Evict(old(State()), leaf, levels)
    {
      hide Pick, M.StashInRange, Shaped;
      ghost var o := State();
      var l := levels;
      while l > 0
        invariant 0 <= l <= levels && Shaped(State()) && M.StashInRange(State())
        invariant positionMap[..] == o.positionMap
        invariant Evict(State(), leaf, l) == Evict(o, leaf, levels)
      {
        M.EvictLevelInRange(State(), leaf, l - 1);
        l := l - 1;
        EvictBucket(leaf, l);
      }
    }

    method Compact()
      modifies this`stash
      ensures stash == Reals(old(stash))
    {
      var kept := [];
      for i := 0 to |stash|
        invariant stash == old(stash) && kept == Reals(stash[..i])
      {
        RealsOfPrefix(stash, i);
        if stash[i].index != -1 {
          kept := kept + [stash[i]];
        }
      }
      assert stash[..|stash|] == stash;
      stash := kept;
    }

    /** access: what it does to the object and what it returns.  READ returns what is stored; if
        buckets have room for what the stash carries, READ changes no block and WRITE just its
        own. */
    method Access(op: Operation, index: nat, newLeaf: nat) returns (data: Data)
      requires Valid() && index < positionMap.Length && newLeaf < Pow2(levels - 1)
      modifies this`stash, positionMap, storage
      ensures Valid()
      ensures State() == PathOrams.Access(old(State()), op, index, newLeaf)
      ensures data == Answer(old(State()), op, index)
      ensures op.Read? ==> M.Stores(old(M.All(State())), index, data)
      ensures M.Fits(bucketSize, old(M.Carried(State(), op, index))) || M.Fits(bucketSize, positionMap.Length) ==>
        && (op.Read? ==> M.All(State()) == old(M.All(State())))
        && (op.Write? ==> M.Written(old(M.All(State())), M.All(State()), index, op.data))
    {
      hide PathBlocks, Evict, FindLast, Reals, M.Placed, M.Distinct, M.All, M.Stores, M.Written, M.StashInRange, M.Carried;
      ghost var o := State();
      M.AccessIsMemory(o, op, index, newLeaf);
      M.CarriedBound(o, op, index);
      data := ZERO;
      var oldLeaf := positionMap[index];
      positionMap[index] := newLeaf;
      assert positionMap[..] == o.positionMap[index := newLeaf];
      ReadPath(oldLeaf);
      ghost var o1 := Absorb(Remap(o, index, newLeaf), oldLeaf);
      assert State() == o1;
      var target := FindTarget(index);
      match op {
        case Write(newData) =>
          if target < 0 {
            stash := stash + [Block(index, newData)];
          } else {
            stash := stash[target := Block(index, newData)];
          }
        case Read =>
          if target >= 0 {
            data := stash[target].data;
          }
      }
      assert State() == WithStash(o1, Apply(op, o1.stash, index));
      M.AccessStashInRange(o, op, index, newLeaf);
      EvictPath(oldLeaf);
      Compact();
      assert State() == PathOrams.Access(o, op, index, newLeaf);
    }
  }
}
