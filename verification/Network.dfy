/** CIDR networks as address ranges (Network). */
module Networks {

  type Octet = bv8

  /** An address: the family, its octets in network order, and the IPv6 scope id (zero for
      IPv4). */
  datatype Address = Address(isV6: bool, bytes: seq<Octet>, scope: nat)

  predicate WellFormed(a: Address) {
    |a.bytes| == (if a.isV6 then 16 else 4) && (!a.isV6 ==> a.scope == 0)
  }

  /** Byte-wise order of equally long sequences. */
  predicate LexLeq(a: seq<Octet>, b: seq<Octet>)
    requires |a| == |b|
  {
    a == [] || a[0] < b[0] || (a[0] == b[0] && LexLeq(a[1..], b[1..]))
  }

  /** operator<= of addresses: IPv4 before IPv6, then octets, then scope id. */
  predicate AddressLeq(a: Address, b: Address)
    requires WellFormed(a) && WellFormed(b)
  {
    if a.isV6 != b.isV6 then b.isV6
    else LexLeq(a.bytes, b.bytes) && (a.bytes == b.bytes ==> a.scope <= b.scope)
  }

  datatype Network = Network(minAddress: Address, maxAddress: Address)

  /** Network::doesContain. */
  predicate DoesContain(n: Network, a: Address)
    requires WellFormed(n.minAddress) && WellFormed(n.maxAddress) && WellFormed(a)
  {
    AddressLeq(n.minAddress, a) && AddressLeq(a, n.maxAddress)
  }

  // ---------------------------------------------------------------- bits

  /** Bit `i` of the octets, the most significant bit of the first octet being bit 0. */
  function Bit(s: seq<Octet>, i: nat): (b: bool)
    requires i < 8 * |s|
  {
    OctetBit(s[i / 8], i % 8)
  }

  function OctetBit(x: Octet, b: nat): (r: bool)
    requires b < 8
  {
    Low(x, Single(b)) != 0
  }

  /** The octet whose only one is bit `b`. */
  function Single(b: nat): (m: Octet)
    requires b < 8
  {
    if b == 0 then 0x80 else if b == 1 then 0x40 else if b == 2 then 0x20 else if b == 3 then 0x10
    else if b == 4 then 0x08 else if b == 5 then 0x04 else if b == 6 then 0x02 else 0x01
  }

  function Low(a: Octet, mask: Octet): (r: Octet) {
    a & mask
  }

  function High(a: Octet, mask: Octet): (r: Octet) {
    a | !mask
  }

  ghost predicate AgreeOnPrefix(a: seq<Octet>, b: seq<Octet>, length: nat)
    requires |a| == |b| && length <= 8 * |a|
  {
    forall i :: 0 <= i < length ==> Bit(a, i) == Bit(b, i)
  }

  /** The octet whose first `k` bits are ones. */
  function Ones(k: nat): (m: Octet)
    requires k <= 8
  {
    if k == 0 then 0x00 else if k == 1 then 0x80 else if k == 2 then 0xc0 else if k == 3 then 0xe0
    else if k == 4 then 0xf0 else if k == 5 then 0xf8 else if k == 6 then 0xfc else if k == 7 then 0xfe
    else 0xff
  }

  /** How many of the first `length` bits fall into octet `i`. */
  function Share(length: nat, i: nat): (k: nat)
    ensures k <= 8
  {
    if length <= 8 * i then 0 else if length - 8 * i >= 8 then 8 else length - 8 * i
  }

  lemma OneMoreBit(m: Octet, k: nat)
    requires k < 8 && m == Ones(k)
    ensures m | (1 << (7 - k) as bv4) == Ones(k + 1)
  {
  }

  /** Building the mask bit by bit. */
  method MakeMask(length: nat, width: nat) returns (mask: seq<Octet>)
    requires length <= 8 * width
    ensures |mask| == width && forall i :: 0 <= i < width ==> mask[i] == Ones(Share(length, i))
  {
    var m := new Octet[width](_ => 0);
    for i := 0 to length
      invariant forall j :: 0 <= j < width ==> m[j] == Ones(Share(i, j))
    {
      var byteId := i / 8;
      var bitIndex := 7 - i % 8;
      OneMoreBit(m[byteId], i % 8);
      m[byteId] := m[byteId] | (1 << bitIndex as bv4);
    }
    mask := m[..];
  }

  /** The loop over octets. */
  method MakeBounds(bytes: seq<Octet>, mask: seq<Octet>) returns (min: seq<Octet>, max: seq<Octet>)
    requires |mask| == |bytes|
    ensures |min| == |max| == |bytes|
    ensures forall j :: 0 <= j < |bytes| ==> min[j] == Low(bytes[j], mask[j]) && max[j] == High(bytes[j], mask[j])
  {
    hide Low, High;
    var lo, hi := new Octet[|bytes|](_ => 0), new Octet[|bytes|](_ => 0);
    for i := 0 to |bytes|
      invariant forall j :: 0 <= j < i ==> lo[j] == Low(bytes[j], mask[j]) && hi[j] == High(bytes[j], mask[j])
    {
      lo[i] := Low(bytes[i], mask[i]);
      hi[i] := High(bytes[i], mask[i]);
    }
    min, max := lo[..], hi[..];
  }

  /** operator>> for an address with a prefix length; `!ok` stands for the failbit. */
  method ParsePrefix(address: Address, length: nat) returns (ok: bool, network: Network)
    requires WellFormed(address)
    ensures ok <==> length <= if address.isV6 then 128 else 32
    ensures ok ==> network == RangeOf(address, length)
  {
    var width := |address.bytes|;
    ok, network := length <= 8 * width, Network(address, address);
    if ok {
      var mask := MakeMask(length, width);
      hide Ones, Share, Low, High;
      var min, max := MakeBounds(address.bytes, mask);
      assert min == MinBytes(address.bytes, length);
      assert max == MaxBytes(address.bytes, length);
      network := Network(Address(address.isV6, min, 0), Address(address.isV6, max, 0));
    }
  }

  function MinBytes(a: seq<Octet>, length: nat): (r: seq<Octet>)
    ensures |r| == |a|
  {
    seq(|a|, i requires 0 <= i < |a| => Low(a[i], Ones(Share(length, i))))
  }

  function MaxBytes(a: seq<Octet>, length: nat): (r: seq<Octet>)
    ensures |r| == |a|
  {
    seq(|a|, i requires 0 <= i < |a| => High(a[i], Ones(Share(length, i))))
  }

  function RangeOf(a: Address, length: nat): (n: Network) {
    Network(Address(a.isV6, MinBytes(a.bytes, length), 0), Address(a.isV6, MaxBytes(a.bytes, length), 0))
  }

  // ---------------------------------------------------------------- refinement

  predicate WithinOctets(n: Octet, c: Octet, x: Octet) {
    n <= c <= x
  }

  /** One octet: lying between the masked bounds is having the same first bits. */
  lemma OctetInRange(a: Octet, c: Octet, k: nat)
    requires k <= 8
    ensures WithinOctets(Low(a, Ones(k)), c, High(a, Ones(k))) <==> SameOctet(a, c, k)
  {
  }

  /** Equal under the mask, octet by octet. */
  ghost predicate SameUnderMask(a: seq<Octet>, c: seq<Octet>, length: nat)
    requires |a| == |c|
  {
    forall i :: 0 <= i < |a| ==> SameOctet(a[i], c[i], Share(length, i))
  }

  predicate SameOctet(a: Octet, c: Octet, k: nat)
    requires k <= 8
  {
    Low(c, Ones(k)) == Low(a, Ones(k))
  }

  function Tail(length: nat): (r: nat) {
    if length >= 8 then length - 8 else 0
  }

  lemma BoundsTail(a: seq<Octet>, length: nat)
    requires a != []
    ensures MinBytes(a, length)[1..] == MinBytes(a[1..], Tail(length))
    ensures MaxBytes(a, length)[1..] == MaxBytes(a[1..], Tail(length))
    ensures MinBytes(a, length)[0] == Low(a[0], Ones(Share(length, 0)))
    ensures MaxBytes(a, length)[0] == High(a[0], Ones(Share(length, 0)))
  {
    hide Ones, Low, High;
    assert forall i :: 0 <= i < |a| - 1 ==> Share(length, i + 1) == Share(Tail(length), i);
  }

  lemma SameTail(a: seq<Octet>, c: seq<Octet>, length: nat)
    requires |a| == |c| && a != []
    ensures SameUnderMask(a, c, length) <==>
            SameOctet(a[0], c[0], Share(length, 0)) && SameUnderMask(a[1..], c[1..], Tail(length))
  {
    hide SameOctet;
    if SameUnderMask(a, c, length) {
      forall i | 0 <= i < |a| - 1
        ensures SameOctet(a[1..][i], c[1..][i], Share(Tail(length), i))
      {
        assert SameOctet(a[i + 1], c[i + 1], Share(length, i + 1));
      }
    }
    if SameOctet(a[0], c[0], Share(length, 0)) && SameUnderMask(a[1..], c[1..], Tail(length)) {
      forall i | 0 <= i < |a|
        ensures SameOctet(a[i], c[i], Share(length, i))
      {
        if i > 0 {
          assert SameOctet(a[1..][i - 1], c[1..][i - 1], Share(Tail(length), i - 1));
        }
      }
    }
  }

  predicate Between(n: Octet, c: Octet, x: Octet, lower: bool, upper: bool) {
    (n < c || (n == c && lower)) && (c < x || (c == x && upper))
  }

  lemma LexStep(lo: seq<Octet>, c: seq<Octet>, hi: seq<Octet>)
    requires |lo| == |c| == |hi| && c != []
    ensures LexLeq(lo, c) && LexLeq(c, hi) <==>
            Between(lo[0], c[0], hi[0], LexLeq(lo[1..], c[1..]), LexLeq(c[1..], hi[1..]))
  {
  }

  lemma BetweenOctets(n: Octet, c: Octet, x: Octet, lower: bool, upper: bool)
    ensures lower && upper ==> (Between(n, c, x, lower, upper) <==> WithinOctets(n, c, x))
    ensures n == x ==> (Between(n, c, x, lower, upper) <==> c == n && lower && upper)
  {
  }

  /** With no bit fixed the bounds are all zeros and all ones. */
  lemma {:induction false} NoPrefixContainsAll(a: seq<Octet>, c: seq<Octet>)
    requires |a| == |c|
    ensures LexLeq(MinBytes(a, 0), c) && LexLeq(c, MaxBytes(a, 0)) && SameUnderMask(a, c, 0)
  {
    hide Low, High, Ones, SameOctet, SameUnderMask, MinBytes, MaxBytes, LexLeq, Between, WithinOctets;
    var lo, hi := MinBytes(a, 0), MaxBytes(a, 0);
    if a == [] {
      EmptySame(a, c, 0);
      LexEmpty(lo, c);
      LexEmpty(c, hi);
    } else {
      BoundsTail(a, 0);
      SameTail(a, c, 0);
      LexStep(lo, c, hi);
      NoPrefixContainsAll(a[1..], c[1..]);
      BetweenOctets(lo[0], c[0], hi[0], LexLeq(lo[1..], c[1..]), LexLeq(c[1..], hi[1..]));
      NothingFixed(a[0], c[0]);
      OctetInRange(a[0], c[0], 0);
    }
  }

  /** Lying between the bounds in byte order is agreeing under the mask. */
  lemma {:induction false} RangeIsMask(a: seq<Octet>, c: seq<Octet>, length: nat)
    requires |a| == |c|
    ensures LexLeq(MinBytes(a, length), c) && LexLeq(c, MaxBytes(a, length)) <==> SameUnderMask(a, c, length)
  {
    hide Low, High, Ones, SameOctet, SameUnderMask, MinBytes, MaxBytes, LexLeq, Between, WithinOctets;
    var lo, hi := MinBytes(a, length), MaxBytes(a, length);
    if a == [] {
      EmptySame(a, c, length);
      LexEmpty(lo, c);
      LexEmpty(c, hi);
    } else {
      BoundsTail(a, length);
      SameTail(a, c, length);
      LexStep(lo, c, hi);
      BetweenOctets(lo[0], c[0], hi[0], LexLeq(lo[1..], c[1..]), LexLeq(c[1..], hi[1..]));
      OctetInRange(a[0], c[0], Share(length, 0));
      if length >= 8 {
        FullOctet(a[0], c[0]);
        RangeIsMask(a[1..], c[1..], length - 8);
      } else {
        NoPrefixContainsAll(a[1..], c[1..]);
      }
    }
  }

  lemma LexEmpty(a: seq<Octet>, b: seq<Octet>)
    requires a == [] && b == []
    ensures LexLeq(a, b)
  {
  }

  lemma NothingFixed(a: Octet, c: Octet)
    ensures SameOctet(a, c, 0)
  {
  }

  lemma EmptySame(a: seq<Octet>, c: seq<Octet>, length: nat)
    requires a == [] && c == []
    ensures SameUnderMask(a, c, length) && MinBytes(a, length) == [] && MaxBytes(a, length) == []
  {
  }

  lemma FullOctet(a: Octet, c: Octet)
    ensures Low(a, Ones(8)) == a && High(a, Ones(8)) == a
    ensures SameOctet(a, c, 8) <==> a == c
  {
  }

  // ---------------------------------------------------------------- bits and masks

  function Either(m: Octet, n: Octet): (r: Octet) {
    m | n
  }

  lemma AndDistributes(x: Octet, m: Octet, n: Octet)
    ensures Low(x, Either(m, n)) == Either(Low(x, m), Low(x, n))
    ensures Low(Low(x, Either(m, n)), m) == Low(x, m)
    ensures Low(Low(x, Either(m, n)), n) == Low(x, n)
  {
  }

  lemma OnesStep(k: nat)
    requires k < 8
    ensures Ones(k + 1) == Either(Ones(k), Single(k))
  {
  }

  lemma SingleIsOneBit(x: Octet, k: nat)
    requires k < 8
    ensures Low(x, Single(k)) == 0 || Low(x, Single(k)) == Single(k)
    ensures Single(k) != 0
  {
    if k < 4 {
      if k == 0 {} else if k == 1 {} else if k == 2 {} else {}
    } else {
      if k == 4 {} else if k == 5 {} else if k == 6 {} else {}
    }
  }

  lemma MaskBit(a: Octet, c: Octet, k: nat)
    requires k < 8
    ensures SameOctet(a, c, k + 1) <==> SameOctet(a, c, k) && OctetBit(a, k) == OctetBit(c, k)
  {
    hide Ones, Single, Low, Either;
    OnesStep(k);
    AndDistributes(a, Ones(k), Single(k));
    AndDistributes(c, Ones(k), Single(k));
    SingleIsOneBit(a, k);
    SingleIsOneBit(c, k);
  }

  lemma {:induction false} MaskBits(a: Octet, c: Octet, k: nat)
    requires k <= 8
    ensures SameOctet(a, c, k) <==> forall b :: 0 <= b < k ==> OctetBit(a, b) == OctetBit(c, b)
  {
    hide SameOctet, OctetBit;
    if k == 0 {
      NothingFixed(a, c);
    } else {
      MaskBits(a, c, k - 1);
      MaskBit(a, c, k - 1);
    }
  }

  lemma MaskIsPrefix(a: seq<Octet>, c: seq<Octet>, length: nat)
    requires |a| == |c| && length <= 8 * |a|
    ensures SameUnderMask(a, c, length) <==> AgreeOnPrefix(a, c, length)
  {
    hide SameOctet, OctetBit;
    if SameUnderMask(a, c, length) {
      forall i | 0 <= i < length
        ensures Bit(a, i) == Bit(c, i)
      {
        assert SameOctet(a[i / 8], c[i / 8], Share(length, i / 8));
        MaskBits(a[i / 8], c[i / 8], Share(length, i / 8));
      }
    }
    if AgreeOnPrefix(a, c, length) {
      forall j | 0 <= j < |a|
        ensures SameOctet(a[j], c[j], Share(length, j))
      {
        forall b | 0 <= b < Share(length, j)
          ensures OctetBit(a[j], b) == OctetBit(c[j], b)
        {
          assert (8 * j + b) / 8 == j && (8 * j + b) % 8 == b;
          assert Bit(a, 8 * j + b) == Bit(c, 8 * j + b);
        }
        MaskBits(a[j], c[j], Share(length, j));
      }
    }
  }

  /** For every address, prefix length and candidate: the range contains the candidate exactly
      if it is of the same family and agrees with the address on the first bits of the
      prefix; except that a candidate with a scope id is left out if its octets are those of
      the largest address of the range. */
  lemma ContainsIffPrefixAgrees(address: Address, length: nat, candidate: Address)
    requires WellFormed(address) && WellFormed(candidate)
    requires length <= if address.isV6 then 128 else 32
    ensures DoesContain(RangeOf(address, length), candidate) <==>
            && candidate.isV6 == address.isV6
            && AgreeOnPrefix(address.bytes, candidate.bytes, length)
            && !(candidate.scope > 0 && candidate.bytes == MaxBytes(address.bytes, length))
  {
    if candidate.isV6 == address.isV6 {
      RangeIsMask(address.bytes, candidate.bytes, length);
      MaskIsPrefix(address.bytes, candidate.bytes, length);
    }
  }

  /** The range contains the address it was made from, unless that has a scope id and is the
      largest address of the range. */
  lemma ContainsItself(address: Address, length: nat)
    requires WellFormed(address) && length <= if address.isV6 then 128 else 32
    ensures DoesContain(RangeOf(address, length), address) <==>
            !(address.scope > 0 && address.bytes == MaxBytes(address.bytes, length))
  {
    ContainsIffPrefixAgrees(address, length, address);
  }
}
