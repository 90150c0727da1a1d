/** The Path ORAM client (OramReadPathEviction) as a value, and its refinement of a flat
    memory.

    The random leaf is an input.  Oblivious selections are written as the conditionals they
    compute. */
module PathOrams {
  import opened Basics

  const BLOCK_SIZE: nat := 2200

  /** Bucket::max_size of a default-constructed bucket. */
  const BUCKET_CAPACITY: nat := 4

  type Data = seq<int>

  function Zeros(n: nat): (r: Data)
    ensures |r| == n && forall i :: 0 <= i < n ==> r[i] == 0
  {
    if n == 0 then [] else Zeros(n - 1) + [0]
  }

  const ZERO: Data := Zeros(BLOCK_SIZE)

  /** A dummy block has index -1. */
  datatype Block = Block(index: int, data: Data)

  const DUMMY: Block := Block(-1, ZERO)

  /** `levels` and `bucketSize` are fixed at construction. */
  datatype Oram = Oram(
    levels: nat,
    bucketSize: nat,
    positionMap: seq<nat>,
    buckets: seq<seq<Block>>,
    stash: seq<Block>)

  // ---------------------------------------------------------------- the tree

  function Pow2(n: nat): (p: nat)
    ensures p > 0
  {
    if n == 0 then 1 else 2 * Pow2(n - 1)
  }

  lemma {:induction false} Pow2Monotone(a: nat, b: nat)
    requires a <= b
    ensures Pow2(a) <= Pow2(b)
    decreases b - a
  {
    if a < b {
      Pow2Monotone(a + 1, b);
    }
  }

  /** `n` shifted right by `k` bits. */
  function Shr(n: nat, k: nat): (r: nat) {
    if k == 0 then n else Shr(n / 2, k - 1)
  }

  lemma {:induction false} ShrBound(n: nat, k: nat, bits: nat)
    requires n < Pow2(bits + k)
    ensures Shr(n, k) < Pow2(bits)
  {
    if k > 0 {
      assert Pow2(bits + k) == 2 * Pow2(bits + (k - 1));
      ShrBound(n / 2, k - 1, bits);
    }
  }

  /** The bucket at `level` on the path to `leaf`. */
  function P(levels: nat, leaf: nat, level: nat): (b: nat)
    requires level < levels
  {
    Pow2(level) - 1 + Shr(leaf, levels - 1 - level)
  }

  /** Buckets of one level are numbered together. */
  lemma LevelOfBucket(levels: nat, leaf: nat, level: nat)
    requires level < levels && leaf < Pow2(levels - 1)
    ensures Pow2(level) - 1 <= P(levels, leaf, level) < Pow2(level + 1) - 1 <= Pow2(levels) - 1
  {
    ShrBound(leaf, levels - 1 - level, level);
    Pow2Monotone(level + 1, levels);
  }

  /** A path has a different bucket at each level. */
  lemma PathBucketsDiffer(levels: nat, leaf: nat, other: nat, i: nat, j: nat)
    requires i < j < levels && leaf < Pow2(levels - 1) && other < Pow2(levels - 1)
    ensures P(levels, leaf, i) != P(levels, other, j)
  {
    LevelOfBucket(levels, leaf, i);
    LevelOfBucket(levels, other, j);
    Pow2Monotone(i + 1, j);
  }

  lemma {:induction false} ShrHalves(n: nat, k: nat)
    ensures Shr(n, k + 1) == Shr(n, k) / 2
    decreases k
  {
    if k > 0 {
      ShrHalves(n / 2, k - 1);
    }
  }

  /** The buckets of a path are a path of the binary tree in which the children of bucket b are
      2b + 1 and 2b + 2, and every leaf has a last bucket of its own. */
  lemma PathGoesDownTheTree(levels: nat, leaf: nat, level: nat)
    requires level < levels && leaf < Pow2(levels - 1)
    ensures level == levels - 1 ==> P(levels, leaf, level) == Pow2(levels - 1) - 1 + leaf
    ensures level > 0 ==>
      var parent := P(levels, leaf, level - 1);
      P(levels, leaf, level) == 2 * parent + 1 || P(levels, leaf, level) == 2 * parent + 2
    ensures level == 0 ==> P(levels, leaf, level) == 0
  {
    LevelOfBucket(levels, leaf, level);
    if level > 0 {
      ShrHalves(leaf, levels - 1 - level);
    } else {
      assert Pow2(0) == 1 && Pow2(1) == 2;
    }
  }

  // ---------------------------------------------------------------- operations

  function Reals(s: seq<Block>): (r: seq<Block>)
    ensures forall x :: x in r ==> x in s && x.index != -1
  {
    if s == [] then []
    else Reals(s[..|s| - 1]) + if s[|s| - 1].index != -1 then [s[|s| - 1]] else []
  }

  predicate IsTree(buckets: seq<seq<Block>>, levels: nat) {
    levels > 0 && |buckets| == Pow2(levels) - 1
  }

  /** The real blocks of the first `n` buckets of a path, root first. */
  function PathBlocks(buckets: seq<seq<Block>>, levels: nat, leaf: nat, n: nat): (r: seq<Block>)
    requires n <= levels && IsTree(buckets, levels) && leaf < Pow2(levels - 1)
  {
    if n == 0 then []
    else
      LevelOfBucket(levels, leaf, n - 1);
      PathBlocks(buckets, levels, leaf, n - 1) + Reals(buckets[P(levels, leaf, n - 1)])
  }

  /** The last block of the stash with this index, or -1. */
  function FindLast(stash: seq<Block>, index: int): (t: int)
    ensures -1 <= t < |stash|
    ensures t >= 0 ==> stash[t].index == index
    ensures t < 0 ==> forall i :: 0 <= i < |stash| ==> stash[i].index != index
  {
    if stash == [] then -1
    else if stash[|stash| - 1].index == index then |stash| - 1
    else FindLast(stash[..|stash| - 1], index)
  }

  predicate Eligible(o: Oram, leaf: nat, level: nat, b: Block)
    requires level < o.levels
  {
    && 0 <= b.index < |o.positionMap|
    && P(o.levels, o.positionMap[b.index], level) == P(o.levels, leaf, level)
  }

  /** The first `room` eligible blocks of the stash, and the stash with them marked. */
  function Pick(o: Oram, leaf: nat, level: nat, stash: seq<Block>, room: nat): (r: (seq<Block>, seq<Block>))
    requires level < o.levels
    ensures |r.0| <= room && |r.1| == |stash|
  {
    if stash == [] then ([], [])
    else
      var n := |stash| - 1;
      var r := Pick(o, leaf, level, stash[..n], room);
      if Eligible(o, leaf, level, stash[n]) && |r.0| < room
      then (r.0 + [stash[n]], r.1 + [Block(-1, stash[n].data)])
      else (r.0, r.1 + [stash[n]])
  }

  function Dummies(n: nat): (r: seq<Block>)
    ensures |r| == n && forall i :: 0 <= i < n ==> r[i].index == -1
  {
    if n == 0 then [] else Dummies(n - 1) + [DUMMY]
  }

  /** A new bucket is offered `bucketSize` slots and keeps the first BUCKET_CAPACITY. */
  function MakeBucket(taken: seq<Block>, bucketSize: nat): (r: seq<Block>)
    requires |taken| <= bucketSize
    ensures |r| == if bucketSize <= 4 then bucketSize else 4
  {
    if bucketSize <= BUCKET_CAPACITY
    then taken + Dummies(bucketSize - |taken|)
    else (taken + Dummies(bucketSize - |taken|))[..BUCKET_CAPACITY]
  }

  function EvictLevel(o: Oram, leaf: nat, level: nat): (r: Oram)
    requires level < o.levels && Shaped(o) && leaf < Pow2(o.levels - 1)
    ensures Shaped(r) && r.levels == o.levels && r.bucketSize == o.bucketSize && r.positionMap == o.positionMap
  {
    LevelOfBucket(o.levels, leaf, level);
    var r := Pick(o, leaf, level, o.stash, o.bucketSize);
    o.(buckets := o.buckets[P(o.levels, leaf, level) := MakeBucket(r.0, o.bucketSize)], stash := r.1)
  }

  /** Write back along the path: levels `n - 1` down to 0. */
  function Evict(o: Oram, leaf: nat, n: nat): (r: Oram)
    requires n <= o.levels && Shaped(o) && leaf < Pow2(o.levels - 1)
    ensures Shaped(r) && r.levels == o.levels && r.bucketSize == o.bucketSize && r.positionMap == o.positionMap
    decreases n
  {
    if n == 0 then o else Evict(EvictLevel(o, leaf, n - 1), leaf, n - 1)
  }

  /** Every leaf is a leaf, and there is a bucket for every node. */
  predicate Shaped(o: Oram) {
    && IsTree(o.buckets, o.levels)
    && forall i :: 0 <= i < |o.positionMap| ==> o.positionMap[i] < Pow2(o.levels - 1)
  }

  datatype Operation = Read | Write(data: Data)

  function Absorb(o: Oram, leaf: nat): (r: Oram)
    requires Shaped(o) && leaf < Pow2(o.levels - 1)
    ensures Shaped(r)
  {
    o.(stash := o.stash + PathBlocks(o.buckets, o.levels, leaf, o.levels))
  }

  function Put(stash: seq<Block>, index: int, data: Data): (r: seq<Block>) {
    var t := FindLast(stash, index);
    if t < 0 then stash + [Block(index, data)] else stash[t := Block(index, data)]
  }

  function Get(stash: seq<Block>, index: int): (r: Data) {
    var t := FindLast(stash, index);
    if t < 0 then ZERO else stash[t].data
  }

  /** What the operation does to the stash between the two passes over the path. */
  function Apply(op: Operation, stash: seq<Block>, index: int): (r: seq<Block>) {
    match op
    case Read => stash
    case Write(data) => Put(stash, index, data)
  }

  function WithStash(o: Oram, stash: seq<Block>): (r: Oram)
    ensures Shaped(o) ==> Shaped(r)
  {
    o.(stash := stash)
  }

  function Remap(o: Oram, index: nat, leaf: nat): (r: Oram)
    requires Shaped(o) && index < |o.positionMap| && leaf < Pow2(o.levels - 1)
    ensures Shaped(r)
  {
    o.(positionMap := o.positionMap[index := leaf])
  }

  /** access: the new state. */
  function Access(o: Oram, op: Operation, index: nat, newLeaf: nat): (r: Oram)
    requires Shaped(o) && index < |o.positionMap| && newLeaf < Pow2(o.levels - 1)
    ensures Shaped(r) && r.levels == o.levels && r.bucketSize == o.bucketSize && |r.positionMap| == |o.positionMap|
  {
    var oldLeaf := o.positionMap[index];
    var o1 := Absorb(Remap(o, index, newLeaf), oldLeaf);
    var o2 := Evict(WithStash(o1, Apply(op, o1.stash, index)), oldLeaf, o1.levels);
    WithStash(o2, Reals(o2.stash))
  }

  /** access: the buffer it returns. */
  function Answer(o: Oram, op: Operation, index: nat): (r: Data)
    requires Shaped(o) && index < |o.positionMap|
  {
    if op.Read? then Get(Absorb(o, o.positionMap[index]).stash, index) else ZERO
  }
}
