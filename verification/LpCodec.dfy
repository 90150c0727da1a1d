/** The encoding of an LpPacket, octet by octet, with the TLV-TYPE numbers of NDNLPv2: the sizes that
    the link service computes with are the sizes of what it sends. */
module LpCodec {
  import opened Basics
  import opened LpPackets
  import opened StreamTransports
  import opened TlvCodec

  const FRAGMENT: nat := 80
  const SEQUENCE: nat := 81
  const FRAG_INDEX: nat := 82
  const FRAG_COUNT: nat := 83
  const LP_PACKET: nat := 100
  const CONGESTION_MARK: nat := 832
  const ACK: nat := 836
  const TX_SEQUENCE: nat := 840

  /** A NonNegativeInteger in 1, 2, 4 or 8 octets, the fewest that hold it. */
  function EncodeInt(n: Seq64): (s: seq<Byte>) {
    if n < 0x100 then Octets(n, 1)
    else if n < 0x1_0000 then Octets(n, 2)
    else if n < 0x1_0000_0000 then Octets(n, 4)
    else Octets(n, 8)
  }

  function IntField(t: nat, field: Option<Seq64>): (s: seq<Byte>)
    requires 1 <= t <= 0xffff_ffff
  {
    if field.None? then [] else EncodeTlv(t, EncodeInt(field.value))
  }

  /** A field with a fixed 8-octet number. */
  function NumberField(t: nat, field: Option<Seq64>): (s: seq<Byte>)
    requires 1 <= t <= 0xffff_ffff
  {
    if field.None? then [] else EncodeTlv(t, Octets(field.value, 8))
  }

  function AckFields(acks: seq<Seq64>): (s: seq<Byte>) {
    if acks == [] then [] else NumberField(ACK, Some(acks[0])) + AckFields(acks[1..])
  }

  function EncodeHeaders(p: LpPacket): (s: seq<Byte>) {
    NumberField(SEQUENCE, p.sequence) + IntField(FRAG_INDEX, p.fragIndex) + IntField(FRAG_COUNT, p.fragCount)
    + p.others + IntField(CONGESTION_MARK, p.congestionMark) + AckFields(p.acks) + NumberField(TX_SEQUENCE, p.txSequence)
  }

  function EncodeFragment(p: LpPacket): (s: seq<Byte>)
    requires p.fragment.Some? ==> |p.fragment.value| < TWO64
  {
    if p.fragment.None? then [] else EncodeTlv(FRAGMENT, p.fragment.value)
  }

  /** Small enough to be encoded at all. */
  ghost predicate Encodable(p: LpPacket) {
    && (p.fragment.Some? ==> |p.fragment.value| < TWO64)
    && |EncodeHeaders(p) + EncodeFragment(p)| < TWO64
  }

  /** lp::Packet::wireEncode: a packet with nothing but a Fragment is sent as that Fragment. */
  ghost function EncodeLp(p: LpPacket): (s: seq<Byte>)
    requires Encodable(p)
  {
    if p.fragment.Some? && EncodeHeaders(p) == [] then p.fragment.value
    else EncodeTlv(LP_PACKET, EncodeHeaders(p) + EncodeFragment(p))
  }

  lemma IntFieldIs(t: nat, field: Option<Seq64>)
    requires 1 <= t <= 0xffff_ffff
    ensures |IntField(t, field)| == IntFieldSize(VarSize(t), field)
  {
  }

  lemma NumberFieldSize(t: nat, field: Option<Seq64>)
    requires 1 <= t <= 0xffff_ffff
    ensures |NumberField(t, field)| == if field.Some? then VarSize(t) + 1 + 8 else 0
  {
  }

  lemma {:induction false} AckFieldsSize(acks: seq<Seq64>)
    ensures |AckFields(acks)| == ACK_SIZE * |acks|
  {
    if acks != [] {
      AckFieldsSize(acks[1..]);
      NumberFieldSize(ACK, Some(acks[0]));
      hide NumberField;
    }
  }

  lemma HeadersSize(p: LpPacket)
    ensures |EncodeHeaders(p)| == HeaderSize(p)
  {
    NumberFieldSize(SEQUENCE, p.sequence);
    IntFieldIs(FRAG_INDEX, p.fragIndex);
    IntFieldIs(FRAG_COUNT, p.fragCount);
    IntFieldIs(CONGESTION_MARK, p.congestionMark);
    AckFieldsSize(p.acks);
    NumberFieldSize(TX_SEQUENCE, p.txSequence);
    hide NumberField, IntField, AckFields, IntFieldSize;
  }

  /** The size used for every MTU decision is the size of the octets that are sent. */
  lemma WireSizeIsExact(p: LpPacket)
    requires Encodable(p)
    ensures |EncodeLp(p)| == WireSize(p)
  {
    HeadersSize(p);
    hide EncodeHeaders, HeaderSize;
    assert |EncodeHeaders(p)| == 0 <==> EncodeHeaders(p) == [];
  }

  /** And a packet with link-layer headers is one element of a byte stream. */
  lemma LpPacketIsAnElement(p: LpPacket, rest: seq<Byte>)
    requires Encodable(p) && !IsBare(p)
    ensures TlvSize(EncodeLp(p) + rest) == Some(WireSize(p))
  {
    HeadersSize(p);
    WireSizeIsExact(p);
    hide EncodeHeaders, HeaderSize;
    TlvSizeInverts(LP_PACKET, EncodeHeaders(p) + EncodeFragment(p), rest);
  }
}
