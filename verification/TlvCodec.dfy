/** The TLV encoding of NDN packets, written from the sending side, and that the framing parser of
    StreamTransport inverts it. */
module TlvCodec {
  import opened Basics
  import opened LpPackets
  import opened StreamTransports

  /** The number as `k` octets, most significant first. */
  function Octets(n: nat, k: nat): (s: seq<Byte>)
    ensures |s| == k
  {
    if k == 0 then [] else Octets(n / 256, k - 1) + [n % 256]
  }

  /** How many numbers `k` octets can hold. */
  function Range(k: nat): (r: nat)
    ensures r > 0
  {
    if k == 0 then 1 else 256 * Range(k - 1)
  }

  /** Shortest form of a VAR-NUMBER: one octet, or a marker and 2, 4 or 8 octets. */
  function EncodeVar(n: nat): (s: seq<Byte>)
    requires n < TWO64
    ensures |s| == VarSize(n)
  {
    if n < 253 then [n]
    else if n <= 0xffff then [253] + Octets(n, 2)
    else if n <= 0xffff_ffff then [254] + Octets(n, 4)
    else [255] + Octets(n, 8)
  }

  function EncodeTlv(t: nat, value: seq<Byte>): (s: seq<Byte>)
    requires 1 <= t <= 0xffff_ffff && |value| < TWO64
  {
    EncodeVar(t) + EncodeVar(|value|) + value
  }

  lemma {:induction false} BigEndianReads(n: nat, k: nat)
    requires n < Range(k)
    ensures BigEndian(Octets(n, k)) == n
  {
    if k > 0 {
      BigEndianReads(n / 256, k - 1);
      var s := Octets(n, k);
      assert s[..|s| - 1] == Octets(n / 256, k - 1) && s[|s| - 1] == n % 256;
    }
  }

  lemma Ranges()
    ensures Range(2) == 0x1_0000 && Range(4) == 0x1_0000_0000 && Range(8) == TWO64
  {
    assert Range(1) == 256 && Range(3) == 0x100_0000;
    assert Range(5) == 0x100_0000_0000 && Range(6) == 0x1_0000_0000_0000 && Range(7) == 0x100_0000_0000_0000;
  }

  lemma ReadVarInverts(n: nat, rest: seq<Byte>)
    requires n < TWO64
    ensures ReadVar(EncodeVar(n) + rest) == Some((n, VarSize(n)))
  {
    Ranges();
    var s, k := EncodeVar(n) + rest, VarSize(n);
    if n >= 253 {
      assert s[1..k] == Octets(n, k - 1);
      BigEndianReads(n, k - 1);
    }
  }

  /** A VAR-NUMBER that is cut off is not read. */
  lemma ReadVarWaits(n: nat, cut: nat)
    requires n < TWO64 && cut < VarSize(n)
    ensures ReadVar(EncodeVar(n)[..cut]) == None
  {
  }

  /** The parser finds exactly the element that was encoded, whatever follows it. */
  lemma TlvSizeInverts(t: nat, value: seq<Byte>, rest: seq<Byte>)
    requires 1 <= t <= 0xffff_ffff && |value| < TWO64
    ensures TlvSize(EncodeTlv(t, value) + rest) == Some(|EncodeTlv(t, value)|)
    ensures ReadVar(EncodeTlv(t, value) + rest) == Some((t, VarSize(t)))
  {
    var s := EncodeTlv(t, value) + rest;
    assert s == EncodeVar(t) + (EncodeVar(|value|) + value + rest);
    ReadVarInverts(t, EncodeVar(|value|) + value + rest);
    assert s[VarSize(t)..] == EncodeVar(|value|) + (value + rest);
    ReadVarInverts(|value|, value + rest);
  }

  /** And nothing in any proper prefix of it. */
  lemma TlvSizeWaits(t: nat, value: seq<Byte>, cut: nat)
    requires 1 <= t <= 0xffff_ffff && |value| < TWO64 && cut < |EncodeTlv(t, value)|
    ensures TlvSize(EncodeTlv(t, value)[..cut]) == None
  {
    var s := EncodeTlv(t, value)[..cut];
    var head, len := EncodeVar(t), EncodeVar(|value|);
    if cut < |head| {
      assert s == head[..cut];
      ReadVarWaits(t, cut);
    } else {
      assert s == head + (len + value)[..cut - |head|];
      ReadVarInverts(t, (len + value)[..cut - |head|]);
      assert s[|head|..] == (len + value)[..cut - |head|];
      if cut < |head| + |len| {
        assert s[|head|..] == len[..cut - |head|];
        ReadVarWaits(|value|, cut - |head|);
      } else {
        var got := value[..cut - |head| - |len|];
        assert s[|head|..] == len + got;
        ReadVarInverts(|value|, got);
      }
    }
  }

  /** A TLV-TYPE of 0 or above 2^32 - 1 never makes an element. */
  lemma InvalidTypeIsRefused(t: nat, rest: seq<Byte>)
    requires t < TWO64 && (t == 0 || t > 0xffff_ffff)
    ensures TlvSize(EncodeVar(t) + rest) == None
  {
    ReadVarInverts(t, rest);
  }

  // ---------------------------------------------------------------- streams

  /** A packet as its sender sees it. */
  datatype Element = Element(tlvType: nat, value: seq<Byte>)

  type Packet = e: Element | 1 <= e.tlvType <= 0xffff_ffff && |e.value| < TWO64 witness Element(1, [])

  function Encode(e: Packet): (s: seq<Byte>)
    ensures |s| > 0
  {
    EncodeTlv(e.tlvType, e.value)
  }

  function EncodeAll(es: seq<Packet>): (r: seq<seq<Byte>>)
    ensures |r| == |es| && forall i :: 0 <= i < |es| ==> r[i] == Encode(es[i])
  {
    if es == [] then [] else [Encode(es[0])] + EncodeAll(es[1..])
  }

  /** The parser finds the packet at the start of a stream, or waits for the rest of it. */
  lemma PacketIsFound(e: Packet, rest: seq<Byte>)
    ensures TlvSize(Encode(e) + rest) == Some(|Encode(e)|)
  {
    TlvSizeInverts(e.tlvType, e.value, rest);
  }

  lemma UnfinishedWaits(e: Packet, cut: nat)
    requires cut < |Encode(e)|
    ensures TlvSize(Encode(e)[..cut]) == None
  {
    TlvSizeWaits(e.tlvType, e.value, cut);
  }

  /** Packets sent back to back, the last one cut off anywhere, come back one by one; the octets of
      the unfinished one wait. */
  lemma {:induction false} StreamComesBack(es: seq<Packet>, last: Packet, cut: nat)
    requires cut < |Encode(last)|
    ensures Greedy(TlvSize, Flatten(EncodeAll(es)) + Encode(last)[..cut]) == (EncodeAll(es), Encode(last)[..cut])
  {
    hide Encode, TlvSize;
    var tail := Encode(last)[..cut];
    if es == [] {
      UnfinishedWaits(last, cut);
      assert Flatten(EncodeAll(es)) + tail == tail;
    } else {
      StreamComesBack(es[1..], last, cut);
      var first, rest := Encode(es[0]), EncodeAll(es[1..]);
      var s := Flatten(EncodeAll(es)) + tail;
      assert EncodeAll(es)[1..] == rest;
      assert s == first + (Flatten(rest) + tail);
      PacketIsFound(es[0], Flatten(rest) + tail);
      assert s[|first|..] == Flatten(rest) + tail && s[..|first|] == first;
    }
  }

  /** The same over any sequence of reads: however the transport cuts the stream up, the packets
      that were sent are the packets received. */
  lemma SentIsReceived(es: seq<Packet>, last: Packet, cut: nat, chunks: seq<seq<Byte>>)
    requires cut < |Encode(last)| && Flatten(chunks) == Flatten(EncodeAll(es)) + Encode(last)[..cut]
    ensures AfterReads(TlvSize, chunks) == (EncodeAll(es), Encode(last)[..cut])
  {
    TlvIsPrefixStable();
    ChunksDoNotMatter(TlvSize, chunks);
    StreamComesBack(es, last, cut);
  }
}
