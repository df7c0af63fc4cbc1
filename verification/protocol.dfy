/** Wire formats the dispatcher reads through its header pointers: the 14-byte
    Ethernet II header (RFC 894), the 28-byte Ethernet/IPv4 ARP packet
    (RFC 826) and the fixed 20-byte part of the IPv4 header (section 3.1 of
    RFC 791). Each header has a typed view, a decoder that checks the length
    before reading, and an encoder; the round-trip lemmas tie the two. */
module Protocol {
  import opened Bytes

  datatype Option<T> = None | Some(value: T)

  const ETHER_HDR_LEN: nat := 14
  const ARP_HDR_LEN: nat := 28
  const IP_HDR_LEN: nat := 20

  const ETHERTYPE_ARP: uint16 := 0x0806
  const ETHERTYPE_IP: uint16 := 0x0800

  const ARP_OP_REQUEST: uint16 := 1
  const ARP_OP_REPLY: uint16 := 2

  /** Offset of the IPv4 header-checksum field from the start of the frame. */
  const IP_SUM_OFFSET: nat := ETHER_HDR_LEN + 10
  /** Offset of the IPv4 time-to-live byte from the start of the frame. */
  const IP_TTL_OFFSET: nat := ETHER_HDR_LEN + 8

  type MacAddr = s: seq<uint8> | |s| == 6 witness [0, 0, 0, 0, 0, 0]
  type Ipv4Addr = s: seq<uint8> | |s| == 4 witness [0, 0, 0, 0]

  datatype EthernetHeader = EthernetHeader(dhost: MacAddr, shost: MacAddr, etherType: uint16)

  datatype ArpHeader = ArpHeader(
    hrd: uint16, pro: uint16, hln: uint8, pln: uint8, op: uint16,
    sha: MacAddr, sip: Ipv4Addr, tha: MacAddr, tip: Ipv4Addr)

  /** `verIhl` holds the version and header-length nibbles in one byte. */
  datatype IpHeader = IpHeader(
    verIhl: uint8, tos: uint8, totalLen: uint16, id: uint16, off: uint16,
    ttl: uint8, proto: uint8, sum: uint16, src: Ipv4Addr, dst: Ipv4Addr)

  // ---------------------------------------------------------------- Ethernet

  function EncodeEthernet(h: EthernetHeader): (b: seq<uint8>)
    ensures |b| == ETHER_HDR_LEN
    ensures BE16(b[12], b[13]) == h.etherType
  {
    h.dhost + h.shost + ToBE16(h.etherType)
  }

  /** The Ethernet header at the start of `b`; None when `b` is shorter. */
  function DecodeEthernet(b: seq<uint8>): (h: Option<EthernetHeader>)
    ensures h.Some? <==> |b| >= ETHER_HDR_LEN
    ensures h.Some? ==> h.value.etherType == BE16(b[12], b[13])
  {
    if |b| < ETHER_HDR_LEN then None
    else Some(EthernetHeader(b[0..6], b[6..12], BE16(b[12], b[13])))
  }

  lemma EthernetRoundTrip(h: EthernetHeader, payload: seq<uint8>)
    ensures DecodeEthernet(EncodeEthernet(h) + payload) == Some(h)
  {
    var b := EncodeEthernet(h) + payload;
    assert b[0..6] == h.dhost;
    assert b[6..12] == h.shost;
  }

  lemma EthernetDecodeEncode(b: seq<uint8>)
    requires |b| >= ETHER_HDR_LEN
    ensures EncodeEthernet(DecodeEthernet(b).value) == b[..ETHER_HDR_LEN]
  {
  }

  // --------------------------------------------------------------------- ARP

  function EncodeArp(h: ArpHeader): (b: seq<uint8>)
    ensures |b| == ARP_HDR_LEN
    ensures BE16(b[6], b[7]) == h.op
    ensures b[24..28] == h.tip
  {
    ToBE16(h.hrd) + ToBE16(h.pro) + [h.hln, h.pln] + ToBE16(h.op)
      + h.sha + h.sip + h.tha + h.tip
  }

  /** The ARP packet at the start of `b`; None when `b` is shorter than 28 bytes. */
  function DecodeArp(b: seq<uint8>): (h: Option<ArpHeader>)
    ensures h.Some? <==> |b| >= ARP_HDR_LEN
    ensures h.Some? ==> h.value.op == BE16(b[6], b[7]) && h.value.tip == b[24..28]
  {
    if |b| < ARP_HDR_LEN then None
    else Some(ArpHeader(
      BE16(b[0], b[1]), BE16(b[2], b[3]), b[4], b[5], BE16(b[6], b[7]),
      b[8..14], b[14..18], b[18..24], b[24..28]))
  }

  lemma ArpRoundTrip(h: ArpHeader, rest: seq<uint8>)
    ensures DecodeArp(EncodeArp(h) + rest) == Some(h)
  {
    var b := EncodeArp(h) + rest;
    assert b[8..14] == h.sha;
    assert b[14..18] == h.sip;
    assert b[18..24] == h.tha;
    assert b[24..28] == h.tip;
  }

  lemma ArpDecodeEncode(b: seq<uint8>)
    requires |b| >= ARP_HDR_LEN
    ensures EncodeArp(DecodeArp(b).value) == b[..ARP_HDR_LEN]
  {
  }

  // -------------------------------------------------------------------- IPv4

  function EncodeIp(h: IpHeader): (b: seq<uint8>)
    ensures |b| == IP_HDR_LEN
    ensures b[8] == h.ttl
    ensures BE16(b[10], b[11]) == h.sum
  {
    [h.verIhl, h.tos] + ToBE16(h.totalLen) + ToBE16(h.id) + ToBE16(h.off)
      + [h.ttl, h.proto] + ToBE16(h.sum) + h.src + h.dst
  }

  /** The fixed part of the IPv4 header at the start of `b`; None when `b` is
      shorter than 20 bytes. Options beyond the fixed part are not decoded. */
  function DecodeIp(b: seq<uint8>): (h: Option<IpHeader>)
    ensures h.Some? <==> |b| >= IP_HDR_LEN
    ensures h.Some? ==> h.value.ttl == b[8] && h.value.sum == BE16(b[10], b[11])
  {
    if |b| < IP_HDR_LEN then None
    else Some(IpHeader(
      b[0], b[1], BE16(b[2], b[3]), BE16(b[4], b[5]), BE16(b[6], b[7]),
      b[8], b[9], BE16(b[10], b[11]), b[12..16], b[16..20]))
  }

  lemma IpRoundTrip(h: IpHeader, rest: seq<uint8>)
    ensures DecodeIp(EncodeIp(h) + rest) == Some(h)
  {
    var b := EncodeIp(h) + rest;
    assert b[12..16] == h.src;
    assert b[16..20] == h.dst;
  }

  lemma IpDecodeEncode(b: seq<uint8>)
    requires |b| >= IP_HDR_LEN
    ensures EncodeIp(DecodeIp(b).value) == b[..IP_HDR_LEN]
  {
  }
}
