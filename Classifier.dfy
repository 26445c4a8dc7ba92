/**
 * The packet classifier of src/main.c (lines 183-258): from the bytes of a
 * received Ethernet II frame, either a drop or a flow key.
 *
 * The payload after the 14-byte Ethernet header is always read as an IPv6
 * header (section 3 of RFC 8200); the EtherType is never consulted. Ports
 * are the first four bytes of the transport header, which have the same
 * layout in UDP (RFC 768) and TCP (section 3.1 of RFC 9293).
 */
module Classifier {
  import opened Fixed
  import opened Flow

  const ETHER_HDR_LEN: nat := 14
  const IPV4_HDR_LEN: nat := 20
  const IPV6_HDR_LEN: nat := 40
  const UDP_HDR_LEN: nat := 8
  const TCP_HDR_LEN: nat := 20

  const IPPROTO_TCP: byte := 6
  const IPPROTO_UDP: byte := 17

  /** Offsets into the frame: the Next Header byte, the two addresses and
      the transport header. */
  const NEXT_HEADER_AT: nat := 20
  const SRC_ADDR_AT: nat := 22
  const DST_ADDR_AT: nat := 38
  const L4_AT: nat := 54

  /** The furthest byte any path of the classifier dereferences, plus one. */
  const MIN_ROOM: nat := 58

  /** A received mbuf: `room` is the buffer from the data pointer to the end
      of its data room, `dataLen` the bytes of the first segment that hold
      frame data, `pktLen` the frame's total length over all segments. */
  datatype Frame = Frame(room: seq<byte>, dataLen: u16, pktLen: u32)

  /** What every mbuf from the receive path satisfies: the first segment's
      data lies in its data room, and the data room (2048 bytes with the
      default buffer size) covers every byte the classifier reads. */
  predicate WellFormed(f: Frame)
  {
    f.dataLen <= f.pktLen && f.dataLen <= |f.room| && MIN_ROOM <= |f.room|
  }

  datatype Drop = ShortFrame | UnsupportedProtocol | ShortHeader

  datatype Verdict = Accept(key: FlowKey) | Reject(reason: Drop)

  predicate IsTransport(proto: byte)
  {
    proto == IPPROTO_TCP || proto == IPPROTO_UDP
  }

  /** Source and destination port, converted from network byte order; both
      stay 0 for any other protocol (lines 234-248). */
  function Ports(room: seq<byte>, proto: byte): (u16, u16)
    requires MIN_ROOM <= |room|
  {
    if proto == IPPROTO_UDP then
      (BigEndian16(room[L4_AT], room[L4_AT + 1]), BigEndian16(room[L4_AT + 2], room[L4_AT + 3]))
    else if proto == IPPROTO_TCP then
      (BigEndian16(room[L4_AT], room[L4_AT + 1]), BigEndian16(room[L4_AT + 2], room[L4_AT + 3]))
    else
      (0, 0)
  }

  /** The key built at lines 251-258: addresses, ports and protocol. */
  function KeyOf(room: seq<byte>): (k: FlowKey)
    requires MIN_ROOM <= |room|
    ensures k.proto == room[NEXT_HEADER_AT]
    ensures k.srcIp == room[SRC_ADDR_AT..DST_ADDR_AT] && k.dstIp == room[DST_ADDR_AT..L4_AT]
    ensures IsTransport(k.proto) ==>
      k.srcPort == BigEndian16(room[L4_AT], room[L4_AT + 1]) && k.dstPort == BigEndian16(room[L4_AT + 2], room[L4_AT + 3])
    ensures !IsTransport(k.proto) ==> k.srcPort == 0 && k.dstPort == 0
  {
    var proto := room[NEXT_HEADER_AT];
    var (sport, dport) := Ports(room, proto);
    FlowKey(room[SRC_ADDR_AT..DST_ADDR_AT], room[DST_ADDR_AT..L4_AT], sport, dport, proto)
  }

  /** Length of the fixed transport header of a supported protocol. */
  function TransportHeaderLen(proto: byte): nat
  {
    if proto == IPPROTO_TCP then TCP_HDR_LEN else UDP_HDR_LEN
  }

  /** The third length guard, in the two forms this model knows: as the
      program writes it (line 226: the Ethernet header plus
      sizeof(struct rte_ipv4_hdr)), or corrected to cover the IPv6 header
      and the whole transport header that the classifier goes on to read. */
  datatype Guard = AsWritten | Corrected

  /** The shortest first segment the third guard lets through. */
  function MinFrameLen(g: Guard, proto: byte): nat
  {
    if g == AsWritten then ETHER_HDR_LEN + IPV4_HDR_LEN
    else ETHER_HDR_LEN + IPV6_HDR_LEN + TransportHeaderLen(proto)
  }

  /** The classifier of lines 185-258 with the given third guard: too short
      for an Ethernet header, a Next Header other than TCP or UDP, or too
      short for the guard drops the frame; otherwise the key is built. */
  function ClassifyWith(g: Guard, f: Frame): (v: Verdict)
    requires WellFormed(f)
    ensures v.Accept? ==>
      && v.key == KeyOf(f.room) && IsTransport(v.key.proto)
      && ETHER_HDR_LEN <= MinFrameLen(g, v.key.proto) <= f.dataLen
  {
    if f.dataLen < ETHER_HDR_LEN then Reject(ShortFrame)
    else if f.room[NEXT_HEADER_AT] == 0 || !IsTransport(f.room[NEXT_HEADER_AT]) then Reject(UnsupportedProtocol)
    else if f.dataLen < MinFrameLen(g, f.room[NEXT_HEADER_AT]) then Reject(ShortHeader)
    else Accept(KeyOf(f.room))
  }

  /** The classifier exactly as written: 34 bytes admit a frame whose ports
      are then read from bytes 54..57. */
  function ClassifyAsWritten(f: Frame): (v: Verdict)
    requires WellFormed(f)
    ensures v.Accept? ==> IsTransport(v.key.proto) && 34 <= f.dataLen
  {
    ClassifyWith(AsWritten, f)
  }

  /** The classifier with the length guard corrected: an accepted frame
      holds its whole IPv6 and transport header. */
  function Classify(f: Frame): (v: Verdict)
    requires WellFormed(f)
    ensures v.Accept? ==> IsTransport(v.key.proto) && L4_AT + TransportHeaderLen(v.key.proto) <= f.dataLen
  {
    ClassifyWith(Corrected, f)
  }

  // ---------------------------------------------------------------------
  // Drop conditions and the shape of an accepted key

  /** The as-written classifier drops a frame exactly when it is shorter
      than the Ethernet header, its Next Header byte is not TCP or UDP, or
      it is shorter than 34 bytes. */
  lemma AsWrittenDropsIff(f: Frame)
    requires WellFormed(f)
    ensures ClassifyAsWritten(f).Reject? <==>
      f.dataLen < 14 || !(f.room[20] in {6, 17}) || f.dataLen < 34
  {
  }

  /** The corrected classifier drops a frame exactly when one of the same
      conditions holds or the frame ends before its transport header does. */
  lemma ClassifyDropsIff(f: Frame)
    requires WellFormed(f)
    ensures Classify(f).Reject? <==>
      f.dataLen < 14 || !(f.room[20] in {6, 17}) ||
      (f.room[20] == 17 && f.dataLen < 62) || (f.room[20] == 6 && f.dataLen < 74)
  {
  }

  /** An accepted key is built from the IPv6 addresses, the big-endian ports
      at bytes 54..57 and the Next Header byte, for TCP and UDP alike. */
  lemma AcceptedKeyLayout(f: Frame)
    requires WellFormed(f)
    requires Classify(f).Accept? || ClassifyAsWritten(f).Accept?
    ensures var k := KeyOf(f.room);
      && k.srcIp == f.room[22..38] && k.dstIp == f.room[38..54]
      && k.srcPort == (f.room[54] as int) * 256 + f.room[55]
      && k.dstPort == (f.room[56] as int) * 256 + f.room[57]
      && k.proto == f.room[20] && IsTransport(k.proto)
  {
  }

  /** The corrected classifier accepts only what the as-written one accepts,
      with the same key; above the longest transport header, or below the
      34-byte guard, they agree on every frame. */
  lemma ClassifyRefinesAsWritten(f: Frame)
    requires WellFormed(f)
    ensures Classify(f).Accept? ==> ClassifyAsWritten(f) == Classify(f)
    ensures f.dataLen >= 74 || f.dataLen < 34 ==> ClassifyAsWritten(f) == Classify(f)
  {
  }

  /** Neither the MAC addresses nor the EtherType (bytes 0..13) influence
      the verdict. */
  lemma LinkHeaderIgnored(f: Frame, g: Frame)
    requires WellFormed(f) && WellFormed(g)
    requires f.dataLen == g.dataLen && |f.room| == |g.room|
    requires f.room[ETHER_HDR_LEN..] == g.room[ETHER_HDR_LEN..]
    ensures Classify(f) == Classify(g)
    ensures ClassifyAsWritten(f) == ClassifyAsWritten(g)
  {
    assert forall i | ETHER_HDR_LEN <= i < |f.room| :: f.room[i] == f.room[ETHER_HDR_LEN..][i - ETHER_HDR_LEN];
    assert forall i | ETHER_HDR_LEN <= i < |g.room| :: g.room[i] == g.room[ETHER_HDR_LEN..][i - ETHER_HDR_LEN];
    assert f.room[NEXT_HEADER_AT] == g.room[NEXT_HEADER_AT];
    assert f.room[SRC_ADDR_AT..DST_ADDR_AT] == g.room[SRC_ADDR_AT..DST_ADDR_AT];
    assert f.room[DST_ADDR_AT..L4_AT] == g.room[DST_ADDR_AT..L4_AT];
  }

  /** With the corrected guard an accepted key depends only on the frame's
      own data: frames that agree on their first dataLen bytes get the same
      key, and a frame accepted by one is accepted by the other. */
  lemma ClassifyReadsOnlyData(f: Frame, g: Frame)
    requires WellFormed(f) && WellFormed(g)
    requires f.dataLen == g.dataLen && f.room[..f.dataLen] == g.room[..g.dataLen]
    requires Classify(f).Accept?
    ensures Classify(g) == Classify(f)
  {
    assert forall i | 0 <= i < f.dataLen :: f.room[i] == f.room[..f.dataLen][i] == g.room[..g.dataLen][i] == g.room[i];
    assert f.room[SRC_ADDR_AT..DST_ADDR_AT] == g.room[SRC_ADDR_AT..DST_ADDR_AT];
    assert f.room[DST_ADDR_AT..L4_AT] == g.room[DST_ADDR_AT..L4_AT];
  }

  /** The as-written guard lets through a 34-byte UDP frame and takes its
      ports from bytes 54..57, past the frame's data: two such frames that
      agree on all 34 bytes of data get different keys. */
  lemma AsWrittenReadsPastData()
    ensures var a := Frame(seq(58, i => if i == 20 then 17 else 0), 34, 34);
            var b := Frame(seq(58, i => if i == 20 then 17 else if i == 54 then 1 else 0), 34, 34);
      && WellFormed(a) && WellFormed(b)
      && a.room[..a.dataLen] == b.room[..b.dataLen]
      && ClassifyAsWritten(a).Accept? && ClassifyAsWritten(b).Accept?
      && ClassifyAsWritten(a).key.srcPort == 0 && ClassifyAsWritten(b).key.srcPort == 256
      && Classify(a) == Classify(b) == Reject(ShortHeader)
  {
    var a := Frame(seq(58, i => if i == 20 then 17 else 0), 34, 34);
    var b := Frame(seq(58, i => if i == 20 then 17 else if i == 54 then 1 else 0), 34, 34);
    assert a.room[..34] == b.room[..34];
  }

  // ---------------------------------------------------------------------
  // Building a frame for a key: the classifier's inverse

  /** A 40-byte IPv6 header: version 6, payload length, Next Header, hop
      limit 64, source and destination address. */
  function IPv6Header(k: FlowKey, payloadLen: u16): (h: seq<byte>)
    ensures |h| == IPV6_HDR_LEN
  {
    [0x60, 0, 0, 0, High(payloadLen), Low(payloadLen), k.proto, 64] + k.srcIp + k.dstIp
  }

  /** A transport header for the key's protocol: ports in network order
      followed by the rest of a UDP (8-byte) or TCP (20-byte) header. */
  function TransportHeader(k: FlowKey, udpLen: u16): (h: seq<byte>)
    ensures |h| == TransportHeaderLen(k.proto)
  {
    var ports := [High(k.srcPort), Low(k.srcPort), High(k.dstPort), Low(k.dstPort)];
    if k.proto == IPPROTO_TCP then ports + seq(8, _ => 0) + [0x50, 0x10] + seq(6, _ => 0)
    else ports + [High(udpLen), Low(udpLen), 0, 0]
  }

  /** A single-segment Ethernet II frame carrying an IPv6 datagram of the
      key's flow with the given payload. */
  function EncodeFrame(dstMac: seq<byte>, srcMac: seq<byte>, k: FlowKey, payload: seq<byte>): (f: Frame)
    requires |dstMac| == 6 && |srcMac| == 6 && |payload| <= 1400
    ensures |f.room| == ETHER_HDR_LEN + IPV6_HDR_LEN + TransportHeaderLen(k.proto) + |payload|
    ensures f.dataLen == f.pktLen == |f.room|
  {
    var l4Len := TransportHeaderLen(k.proto) + |payload|;
    var bytes := dstMac + srcMac + [0x86, 0xDD] + IPv6Header(k, l4Len) + TransportHeader(k, l4Len) + payload;
    Frame(bytes, |bytes|, |bytes|)
  }

  /** Round trip: classifying a frame built for a TCP or UDP key gives that
      key back, whatever the MAC addresses and payload. */
  lemma {:induction false} EncodeThenClassify(dstMac: seq<byte>, srcMac: seq<byte>, k: FlowKey, payload: seq<byte>)
    requires |dstMac| == 6 && |srcMac| == 6 && |payload| <= 1400
    requires IsTransport(k.proto)
    ensures WellFormed(EncodeFrame(dstMac, srcMac, k, payload))
    ensures Classify(EncodeFrame(dstMac, srcMac, k, payload)) == Accept(k)
    ensures ClassifyAsWritten(EncodeFrame(dstMac, srcMac, k, payload)) == Accept(k)
  {
    var f := EncodeFrame(dstMac, srcMac, k, payload);
    var l4Len := TransportHeaderLen(k.proto) + |payload|;
    var ip := IPv6Header(k, l4Len);
    var l4 := TransportHeader(k, l4Len);
    assert f.room == (dstMac + srcMac + [0x86, 0xDD]) + ip + l4 + payload;
    assert f.room[NEXT_HEADER_AT] == ip[6] == k.proto;
    assert f.room[SRC_ADDR_AT..DST_ADDR_AT] == ip[8..24] == k.srcIp;
    assert f.room[DST_ADDR_AT..L4_AT] == ip[24..40] == k.dstIp;
    assert f.room[L4_AT] == l4[0] && f.room[L4_AT + 1] == l4[1];
    assert f.room[L4_AT + 2] == l4[2] && f.room[L4_AT + 3] == l4[3];
    BigEndian16RoundTrip(k.srcPort);
    BigEndian16RoundTrip(k.dstPort);
  }
}
