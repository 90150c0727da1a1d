/** The PIT's Interests kept in Path ORAM blocks, with a pool of block ids. */
module PitStores {
  import opened Basics
  import opened PathOrams
  import P = PitEntries
  import opened OramClients
  import S = StreamTransports
  import T = TlvCodec
  import opened LpPackets
  import M = PathOramMemory

  const ORAM_CAPACITY: nat := 1024

  /** Words of a block after the valid flag and the block id. */
  const WIRE_WORDS: nat := BLOCK_SIZE - 2

  const MAX_WIRE: nat := 4 * WIRE_WORDS

  const TLV_INTEREST: nat := 5

  type Wire = seq<Byte>

  // ---------------------------------------------------------------- block layout

  function At(s: seq<Byte>, i: nat): (b: Byte) {
    if i < |s| then s[i] else 0
  }

  /** Four octets as one little-endian 32-bit word. */
  function Word(s: seq<Byte>): (w: nat) {
    At(s, 0) + 256 * (At(s, 1) + 256 * (At(s, 2) + 256 * At(s, 3)))
  }

  function Octets(w: int): (s: seq<Byte>)
    ensures |s| == 4
  {
    [w % 256, w / 256 % 256, w / 256 / 256 % 256, w / 256 / 256 / 256 % 256]
  }

  lemma OctetsOfWord(s: seq<Byte>)
    ensures Octets(Word(s)) == [At(s, 0), At(s, 1), At(s, 2), At(s, 3)]
  {
    hide At;
    Split(At(s, 0), At(s, 1) + 256 * (At(s, 2) + 256 * At(s, 3)));
    Split(At(s, 1), At(s, 2) + 256 * At(s, 3));
    Split(At(s, 2), At(s, 3));
  }

  lemma Split(low: Byte, high: nat)
    ensures (low + 256 * high) % 256 == low && (low + 256 * high) / 256 == high
  {
  }

  function Pack(s: seq<Byte>): (words: Data)
    decreases |s|
  {
    if s == [] then [] else [Word(s)] + Pack(if |s| <= 4 then [] else s[4..])
  }

  function Unpack(words: Data): (s: seq<Byte>) {
    if words == [] then [] else Octets(words[0]) + Unpack(words[1..])
  }

  lemma {:induction false} PackLength(s: seq<Byte>, n: nat)
    requires |s| <= 4 * n
    ensures |Pack(s)| <= n
    decreases |s|
  {
    if s != [] {
      PackLength(if |s| <= 4 then [] else s[4..], n - 1);
    }
  }

  /** Octets copied into a block come back, whatever follows them. */
  lemma {:induction false} UnpackPacked(s: seq<Byte>, rest: Data)
    ensures s <= Unpack(Pack(s) + rest)
    decreases |s|
  {
    if s != [] {
      var t := if |s| <= 4 then [] else s[4..];
      var words := Pack(s) + rest;
      assert words[1..] == Pack(t) + rest && words[0] == Word(s);
      UnpackPacked(t, rest);
      OctetsOfWord(s);
      hide Word, Octets;
      var out := Unpack(words);
      assert out == Octets(Word(s)) + Unpack(words[1..]);
      if |s| <= 4 {
        assert forall i :: 0 <= i < |s| ==> out[i] == s[i];
      } else {
        assert forall i :: 0 <= i < 4 ==> out[i] == s[i];
        assert forall i :: 4 <= i < |s| ==> out[i] == t[i - 4] == s[i];
      }
    }
  }

  /** writeInterestToOram: valid flag, block id, then the wire. */
  function Encode(id: nat, wire: Wire): (buf: Data)
    requires |wire| <= MAX_WIRE
    ensures |buf| == BLOCK_SIZE
  {
    PackLength(wire, WIRE_WORDS);
    [1, id] + Pack(wire) + Zeros(WIRE_WORDS - |Pack(wire)|)
  }

  /** readInterestFromOram: the TLV element at the start of the wire area, if it is an Interest. */
  function Decode(buf: Data): (wire: Option<Wire>) {
    if |buf| < 2 || buf[0] != 1 then None
    else
      var bytes := Unpack(buf[2..]);
      match S.TlvSize(bytes)
      case None => None
      case Some(n) =>
        if n <= |bytes| && S.ReadVar(bytes).Some? && S.ReadVar(bytes).value.0 == TLV_INTEREST then Some(bytes[..n]) else None
  }

  /** The wire encoding of an Interest: one whole TLV element of that type. */
  predicate IsInterest(wire: Wire) {
    S.TlvSize(wire) == Some(|wire|) && S.ReadVar(wire).Some? && S.ReadVar(wire).value.0 == TLV_INTEREST
  }

  lemma DecodeInvertsEncode(id: nat, wire: Wire)
    requires |wire| <= MAX_WIRE && IsInterest(wire)
    ensures Decode(Encode(id, wire)) == Some(wire)
  {
    PackLength(wire, WIRE_WORDS);
    var rest := Zeros(WIRE_WORDS - |Pack(wire)|);
    var buf := Encode(id, wire);
    assert buf[2..] == Pack(wire) + rest;
    UnpackPacked(wire, rest);
    var bytes := Unpack(buf[2..]);
    var t := bytes[|wire|..];
    assert bytes == wire + t;
    S.TlvIsPrefixStable();
    assert S.StableAt(S.TlvSize, wire, t);
    S.ReadVarStable(wire, t);
    assert bytes[..|wire|] == wire;
  }

  /** An encoded Interest of up to 8792 octets comes back from its block; an element of any other
      type does not. */
  lemma InterestComesBack(id: nat, tlvType: nat, value: Wire)
    requires 1 <= tlvType <= 0xffff_ffff && |value| < TWO64 && |T.EncodeTlv(tlvType, value)| <= 8792
    ensures var wire := T.EncodeTlv(tlvType, value);
      Decode(Encode(id, wire)) == if tlvType == 5 then Some(wire) else None
  {
    var wire := T.EncodeTlv(tlvType, value);
    PackLength(wire, WIRE_WORDS);
    var rest := Zeros(WIRE_WORDS - |Pack(wire)|);
    var buf := Encode(id, wire);
    assert buf[2..] == Pack(wire) + rest;
    UnpackPacked(wire, rest);
    var bytes := Unpack(buf[2..]);
    var t := bytes[|wire|..];
    assert bytes == wire + t && bytes[..|wire|] == wire;
    T.TlvSizeInverts(tlvType, value, t);
  }

  /** A block that was never written, or was cleared, decodes to nothing. */
  lemma DecodeOfZeros()
    ensures Decode(ZERO).None?
  {
    assert ZERO[0] == 0;
  }

  // ---------------------------------------------------------------- the pool of block ids

  datatype Slot = Slot(blockId: nat, interest: Wire)

  /** Each block id is free once or belongs to one entry, never both. */
  ghost predicate Pooled(free: seq<nat>, entries: map<P.Key, Slot>) {
    && NoDup(free)
    && |free| + |entries| == ORAM_CAPACITY
    && (forall x :: x in free ==> x < ORAM_CAPACITY)
    && (forall k :: k in entries ==> entries[k].blockId < ORAM_CAPACITY && entries[k].blockId !in free)
    && (forall j, k :: j in entries && k in entries && entries[j].blockId == entries[k].blockId ==> j == k)
  }

  lemma TakeKeepsPool(free: seq<nat>, entries: map<P.Key, Slot>, k: P.Key, wire: Wire)
    requires Pooled(free, entries) && free != [] && k !in entries
    ensures Pooled(free[1..], entries[k := Slot(free[0], wire)])
  {
    var entries' := entries[k := Slot(free[0], wire)];
    assert entries'.Keys == entries.Keys + {k};
    assert |entries'| == |entries'.Keys| && |entries| == |entries.Keys|;
    assert free[0] in free;
    forall x | x in free[1..]
      ensures x in free && x != free[0]
    {
      var i :| 0 <= i < |free[1..]| && free[1..][i] == x;
      assert free[i + 1] == x;
    }
  }

  lemma RotateKeepsPool(free: seq<nat>, entries: map<P.Key, Slot>)
    requires Pooled(free, entries) && free != []
    ensures Pooled(free[1..] + [free[0]], entries)
  {
    var free' := free[1..] + [free[0]];
    assert forall x :: x in free' <==> x in free;
  }

  lemma ReturnKeepsPool(free: seq<nat>, entries: map<P.Key, Slot>, k: P.Key)
    requires Pooled(free, entries) && k in entries
    ensures Pooled(free + [entries[k].blockId], entries - {k})
  {
    var entries' := entries - {k};
    assert entries'.Keys == entries.Keys - {k};
    assert entries.Keys == entries'.Keys + {k};
    assert |entries'| == |entries'.Keys| && |entries| == |entries.Keys|;
  }

  // ---------------------------------------------------------------- blocks of the entries

  /** The ORAM holds each entry's Interest in the entry's block. */
  ghost predicate Backed(all: multiset<Block>, entries: map<P.Key, Slot>) {
    forall k :: k in entries ==>
      && IsInterest(entries[k].interest) && |entries[k].interest| <= MAX_WIRE
      && Block(entries[k].blockId, Encode(entries[k].blockId, entries[k].interest)) in all
  }

  lemma WriteKeepsBacked(free: seq<nat>, entries: map<P.Key, Slot>, before: multiset<Block>, after: multiset<Block>,
                         k: P.Key, wire: Wire)
    requires Pooled(free, entries) && free != [] && k !in entries && Backed(before, entries)
    requires M.Distinct(before) && IsInterest(wire) && |wire| <= MAX_WIRE
    requires M.Written(before, after, free[0], Encode(free[0], wire))
    ensures Backed(after, entries[k := Slot(free[0], wire)])
  {
    hide Encode, IsInterest, M.Written, M.Distinct;
    M.WriteIsAssignment(before, after, free[0], Encode(free[0], wire));
    assert free[0] in free;
  }

  lemma ClearKeepsBacked(free: seq<nat>, entries: map<P.Key, Slot>, before: multiset<Block>, after: multiset<Block>, k: P.Key)
    requires Pooled(free, entries) && k in entries && Backed(before, entries)
    requires M.Distinct(before) && M.Written(before, after, entries[k].blockId, ZERO)
    ensures Backed(after, entries - {k})
  {
    hide Encode, IsInterest, M.Written, M.Distinct;
    M.WriteIsAssignment(before, after, entries[k].blockId, ZERO);
  }

  lemma ClearedStoresZero(before: multiset<Block>, after: multiset<Block>, id: nat)
    requires M.Distinct(before) && M.Written(before, after, id, ZERO)
    ensures M.Stores(after, id, ZERO)
  {
    M.WriteIsAssignment(before, after, id, ZERO);
  }

  /** Reading an entry's block gives back its Interest. */
  lemma ReadGivesInterest(entries: map<P.Key, Slot>, all: multiset<Block>, k: P.Key, data: Data)
    requires k in entries && Backed(all, entries) && M.Distinct(all) && M.Stores(all, entries[k].blockId, data)
    ensures Decode(data) == Some(entries[k].interest)
  {
    hide Encode, Decode, IsInterest;
    var e := entries[k];
    assert Block(e.blockId, Encode(e.blockId, e.interest)) in all;
    DecodeInvertsEncode(e.blockId, e.interest);
  }

  // ---------------------------------------------------------------- the table

  /** A block is free beside `n` entries, and the Interest fits it. */
  predicate Room(n: nat, wire: Wire): (b: bool)
    ensures b <==> n < 1024 && |wire| <= 8792
  {
    n < ORAM_CAPACITY && |wire| <= MAX_WIRE
  }

  class Pit {
    const oram: OramReadPathEviction
    var freeBlockIds: seq<nat>
    var entries: map<P.Key, Slot>

    ghost predicate Valid()
      reads this, oram, oram.positionMap, oram.storage
    {
      && oram.Valid()
      && oram.positionMap.Length == ORAM_CAPACITY && oram.bucketSize <= BUCKET_CAPACITY
      && Pooled(freeBlockIds, entries)
      && Backed(M.All(oram.State()), entries)
    }

    /** What the forwarder sees: one Interest per key. */
    ghost function Interests(): map<P.Key, Wire>
      reads this
    {
      map k | k in entries :: entries[k].interest
    }

    /** Buckets of four, one block per PIT entry; `leaves` are the drawn positions. */
    constructor (leaves: seq<nat>)
      requires |leaves| == ORAM_CAPACITY
      requires forall i :: 0 <= i < |leaves| ==> leaves[i] < Pow2(NumLevels(ORAM_CAPACITY) - 1)
      ensures Valid() && Interests() == map[]
      ensures fresh(oram) && fresh(oram.positionMap) && fresh(oram.storage)
    {
      hide M.All, M.Inv, M.IsInitial;
      var client := new OramReadPathEviction(BUCKET_CAPACITY, ORAM_CAPACITY, leaves);
      oram := client;
      freeBlockIds := seq(ORAM_CAPACITY, i => i);
      entries := map[];
      new;
      assert |oram.positionMap[..]| == ORAM_CAPACITY;
    }

    method AllocateBlockId() returns (id: Option<nat>)
      modifies this`freeBlockIds
      ensures old(freeBlockIds) == [] ==> id == None && freeBlockIds == []
      ensures old(freeBlockIds) != [] ==> id == Some(old(freeBlockIds)[0]) && freeBlockIds == old(freeBlockIds)[1..]
    {
      if |freeBlockIds| == 0 {
        return None;
      }
      id := Some(freeBlockIds[0]);
      freeBlockIds := freeBlockIds[1..];
    }

    /** A lookup goes through the ORAM and still returns the Interest that was inserted; a new
        entry is refused exactly when the pool is empty or its Interest does not fit a block. */
    method FindOrInsert(k: P.Key, wire: Wire, allowInsert: bool, leaf: nat) returns (found: Option<Wire>, isNew: bool)
      requires Valid() && IsInterest(wire) && leaf < Pow2(oram.levels - 1)
      modifies this`entries, this`freeBlockIds, oram`stash, oram.positionMap, oram.storage
      ensures Valid()
      ensures isNew == (k !in old(Interests()))
      ensures k in old(Interests()) ==> found == Some(old(Interests())[k]) && Interests() == old(Interests())
      ensures k !in old(Interests()) ==>
        if allowInsert && Room(|old(entries)|, wire)
        then found == Some(wire) && Interests() == old(Interests())[k := wire]
        else found == None && Interests() == old(Interests())
    {
      hide M.All, M.Placed, M.StashInRange, M.Written, M.Stores, M.Carried, PathOrams.Access, Answer, Encode, Decode, IsInterest, Backed, Pooled, M.Distinct;
      if k in entries {
        IdInRange(freeBlockIds, entries, k);
        var data := oram.Access(Read, entries[k].blockId, leaf);
        ReadGivesInterest(entries, M.All(oram.State()), k, data);
        var decoded := Decode(data);
        if decoded.Some? {
          entries := entries[k := entries[k].(interest := decoded.value)];
          assert entries == old(entries);
        }
        return Some(entries[k].interest), false;
      }
      if !allowInsert {
        return None, true;
      }
      FreeCount(freeBlockIds, entries);
      var id := AllocateBlockId();
      if id.None? {
        return None, true;
      }
      if |wire| > MAX_WIRE {
        RotateKeepsPool(old(freeBlockIds), entries);
        freeBlockIds := freeBlockIds + [id.value];
        return None, true;
      }
      ghost var before := M.All(oram.State());
      var _ := oram.Access(Write(Encode(id.value, wire)), id.value, leaf);
      TakeKeepsPool(old(freeBlockIds), entries, k, wire);
      WriteKeepsBacked(old(freeBlockIds), entries, before, M.All(oram.State()), k, wire);
      entries := entries[k := Slot(id.value, wire)];
      assert Interests() == old(Interests())[k := wire];
      return Some(wire), true;
    }

    method ClearBlock(id: nat, leaf: nat)
      requires oram.Valid() && id < oram.positionMap.Length && leaf < Pow2(oram.levels - 1)
      requires oram.bucketSize <= BUCKET_CAPACITY
      modifies oram`stash, oram.positionMap, oram.storage
      ensures oram.Valid()
      ensures old(M.Distinct(M.All(oram.State())))
      ensures M.Written(old(M.All(oram.State())), M.All(oram.State()), id, ZERO)
    {
      hide M.All, M.Placed, M.StashInRange, M.Written, M.Stores, M.Carried, PathOrams.Access, Answer, M.Distinct, Shaped;
      var _ := oram.Access(Write(ZERO), id, leaf);
    }

    method Erase(k: P.Key, leaf: nat)
      requires Valid() && k in entries && leaf < Pow2(oram.levels - 1)
      modifies this`entries, this`freeBlockIds, oram`stash, oram.positionMap, oram.storage
      ensures Valid()
      ensures Interests() == old(Interests()) - {k}
      ensures M.Stores(M.All(oram.State()), old(entries[k].blockId), ZERO)
      ensures freeBlockIds == old(freeBlockIds) + [old(entries[k].blockId)]
    {
      hide M.All, M.Placed, M.StashInRange, M.Written, M.Stores, M.Carried, PathOrams.Access, Answer, Backed, Pooled, M.Distinct, Shaped;
      var id := entries[k].blockId;
      IdInRange(freeBlockIds, entries, k);
      ClearBlock(id, leaf);
      ReturnKeepsPool(freeBlockIds, entries, k);
      ClearKeepsBacked(freeBlockIds, entries, old(M.All(oram.State())), M.All(oram.State()), k);
      ClearedStoresZero(old(M.All(oram.State())), M.All(oram.State()), id);
      freeBlockIds := freeBlockIds + [id];
      entries := entries - {k};
    }
  }

  lemma IdInRange(free: seq<nat>, entries: map<P.Key, Slot>, k: P.Key)
    requires Pooled(free, entries) && k in entries
    ensures entries[k].blockId < ORAM_CAPACITY
  {
  }

  lemma FreeCount(free: seq<nat>, entries: map<P.Key, Slot>)
    requires Pooled(free, entries)
    ensures free == [] <==> |entries| == ORAM_CAPACITY
    ensures free != [] ==> free[0] < ORAM_CAPACITY && |entries| < ORAM_CAPACITY
  {
    if free != [] {
      assert free[0] in free;
    }
  }
}
