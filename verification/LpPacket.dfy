/** LpPacket as a value, and the size of its TLV encoding.

    Sizes follow the "TLV Encoding" section of the NDN Packet Format Specification: a
    TLV-TYPE or TLV-LENGTH takes 1, 3, 5 or 9 octets, a NonNegativeInteger 1, 2, 4 or 8. */
module LpPackets {
  import opened Basics

  /** tlv::sizeOfVarNumber */
  function VarSize(n: nat): (s: nat)
    ensures 1 <= s <= 9
  {
    if n < 253 then 1 else if n <= 0xffff then 3 else if n <= 0xffff_ffff then 5 else 9
  }

  /** tlv::sizeOfNonNegativeInteger */
  function IntSize(n: nat): (s: nat)
    ensures 1 <= s <= 8
  {
    if n <= 0xff then 1 else if n <= 0xffff then 2 else if n <= 0xffff_ffff then 4 else 8
  }

  const MAX_NDN_PACKET_SIZE: nat := 8800
  const MTU_UNLIMITED: int := -1

  // Field sizes.  Sequence, FragIndex, FragCount and Fragment have 1-octet TLV-TYPEs;
  // TxSequence, Ack and CongestionMark have 3-octet ones.  Sequence, TxSequence and Ack
  // carry a fixed 8-octet number.
  const SEQUENCE_SIZE: nat := 1 + 1 + 8
  const TX_SEQUENCE_SIZE: nat := 3 + 1 + 8
  const ACK_SIZE: nat := 3 + 1 + 8

  /** The fields of an LpPacket that the link service looks at.  `others` is the encoding
      of every other header field (Nack, PitToken, IncomingFaceId, ...). */
  datatype LpPacket = LpPacket(
    sequence: Option<Seq64>,
    fragIndex: Option<Seq64>,
    fragCount: Option<Seq64>,
    txSequence: Option<Seq64>,
    acks: seq<Seq64>,
    congestionMark: Option<Seq64>,
    others: seq<Byte>,
    fragment: Option<seq<Byte>>)

  /** A default-constructed lp::Packet: an IDLE packet. */
  const IDLE: LpPacket := LpPacket(None, None, None, None, [], None, [], None)

  function IntFieldSize(typeSize: nat, field: Option<Seq64>): (s: nat) {
    match field
    case None => 0
    case Some(v) => typeSize + 1 + IntSize(v)
  }

  /** Octets taken by all fields except Fragment. */
  function HeaderSize(p: LpPacket): (s: nat) {
    (if p.sequence.Some? then SEQUENCE_SIZE else 0)
    + IntFieldSize(1, p.fragIndex)
    + IntFieldSize(1, p.fragCount)
    + (if p.txSequence.Some? then TX_SEQUENCE_SIZE else 0)
    + ACK_SIZE * |p.acks|
    + IntFieldSize(3, p.congestionMark)
    + |p.others|
  }

  function FragmentSize(p: LpPacket): (s: nat) {
    match p.fragment
    case None => 0
    case Some(f) => 1 + VarSize(|f|) + |f|
  }

  /** A packet with no field besides Fragment is encoded as the bare network packet. */
  predicate IsBare(p: LpPacket) {
    HeaderSize(p) == 0 && p.fragment.Some?
  }

  function LpSize(value: nat): (s: nat) {
    1 + VarSize(value) + value
  }

  /** wireEncode().size() */
  function WireSize(p: LpPacket): (s: nat) {
    if IsBare(p) then |p.fragment.value|
    else LpSize(HeaderSize(p) + FragmentSize(p))
  }

  /** WireSize with the largest possible TLV-LENGTH of the LpPacket itself. */
  function Footprint(p: LpPacket): (s: nat)
    ensures WireSize(p) <= s
  {
    1 + 9 + HeaderSize(p) + FragmentSize(p)
  }

  /** checkCongestionLevel, where `congested` says whether it is time to mark. */
  function Marked(p: LpPacket, congested: bool): (r: LpPacket) {
    if congested then p.(congestionMark := Some(1)) else p
  }

  predicate OverMtu(p: LpPacket, mtu: int) {
    mtu != MTU_UNLIMITED && WireSize(p) > mtu
  }
}
