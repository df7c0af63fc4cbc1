/** The frame dispatcher `sr_handlepacket`: one call receives a raw frame and
    the name of the interface it arrived on, classifies it by length, ethertype
    and ARP opcode, and for IPv4 frames compares the header checksum.

    The call is modelled as a pure function from the frame to a `Step`: the
    outcome the code reaches, the frame buffer as the call leaves it, and the
    calls it makes into the ARP cache, in order. The helpers whose code is not
    part of this model enter as parameters:
    - `hit` answers `sr_arpcache_lookup` (true when an entry is found);
    - `helpers.arpKey` is the cache key the code derives from the four
      target-IP bytes of an ARP packet;
    - `helpers.cksum` is `cksum`, applied to the frame after the checksum
      field has been zeroed, returning a value in the same representation as
      the header's checksum field. */
module Router {
  import opened Bytes
  import opened Protocol

  datatype Outcome =
    | TooShort
    | ArpTooShort
    | ArpRequestHit
    | ArpRequestQueued
    | ArpReply
    | ArpUnknownOp(op: uint16)
    | IpTooShort
    | IpChecksumGood
    | IpChecksumBad
    | Unrecognized(etherType: uint16)

  /** A call into the ARP cache. `HandleReq` is `handle_arpreq` on the
      request that `QueueReq` has just returned. */
  datatype CacheCall =
    | Lookup(ip: uint32)
    | QueueReq(ip: uint32, packet: seq<uint8>, iface: string)
    | HandleReq(ip: uint32)

  datatype Helpers = Helpers(arpKey: Ipv4Addr -> uint32, cksum: seq<uint8> -> uint16)

  datatype Step = Step(outcome: Outcome, frame: seq<uint8>, calls: seq<CacheCall>)

  /** The three arms of the checksum comparison in the order the code writes
      them; the third arm holds the TTL decrement. */
  datatype ChecksumBranch = Good | Bad | TtlCheck

  /** `if (saved == computed) … else if (saved != computed) … else …`: the
      first two tests are complementary, so the TTL arm is never reached. */
  function CompareChecksum(saved: uint16, computed: uint16): (b: ChecksumBranch)
    ensures b == Good <==> saved == computed
    ensures b == Bad <==> saved != computed
    ensures b != TtlCheck
  {
    if saved == computed then Good
    else if saved != computed then Bad
    else TtlCheck
  }

  /** The frame with the IPv4 header-checksum field set to zero. */
  function ZeroChecksum(frame: seq<uint8>): (r: seq<uint8>)
    requires |frame| >= IP_SUM_OFFSET + 2
    ensures |r| == |frame|
    ensures r[IP_SUM_OFFSET] == 0 && r[IP_SUM_OFFSET + 1] == 0
    ensures forall i :: 0 <= i < |frame| && i != IP_SUM_OFFSET && i != IP_SUM_OFFSET + 1 ==> r[i] == frame[i]
  {
    frame[..IP_SUM_OFFSET] + [0, 0] + frame[IP_SUM_OFFSET + 2..]
  }

  /** The ARP arm: length check, then the opcode, then for a request the
      cache lookup and, on a miss, queueing the whole frame. */
  function HandleArp(frame: seq<uint8>, iface: string, hit: uint32 -> bool, helpers: Helpers): (s: Step)
    requires |frame| >= ETHER_HDR_LEN
    ensures s.frame == frame
    ensures s.outcome in {ArpRequestHit, ArpRequestQueued, ArpReply, ArpTooShort} || s.outcome.ArpUnknownOp?
    ensures s.calls != [] <==> s.outcome in {ArpRequestHit, ArpRequestQueued}
  {
    match DecodeArp(frame[ETHER_HDR_LEN..])
    case None => Step(ArpTooShort, frame, [])
    case Some(arp) =>
      if arp.op == ARP_OP_REQUEST then
        var key := helpers.arpKey(arp.tip);
        if hit(key) then Step(ArpRequestHit, frame, [Lookup(key)])
        else Step(ArpRequestQueued, frame, [Lookup(key), QueueReq(key, frame, iface), HandleReq(key)])
      else if arp.op == ARP_OP_REPLY then Step(ArpReply, frame, [])
      else Step(ArpUnknownOp(arp.op), frame, [])
  }

  /** The IPv4 arm: length check, then the checksum comparison on the frame
      whose checksum field has been zeroed. */
  function HandleIp(frame: seq<uint8>, helpers: Helpers): (s: Step)
    requires |frame| >= ETHER_HDR_LEN
    ensures s.calls == []
    ensures s.outcome in {IpTooShort, IpChecksumGood, IpChecksumBad}
    ensures s.outcome == IpTooShort <==> |frame| < ETHER_HDR_LEN + IP_HDR_LEN
    ensures s.outcome == IpTooShort ==> s.frame == frame
  {
    match DecodeIp(frame[ETHER_HDR_LEN..])
    case None => Step(IpTooShort, frame, [])
    case Some(ip) =>
      var zeroed := ZeroChecksum(frame);
      match CompareChecksum(ip.sum, helpers.cksum(zeroed))
      case Good => Step(IpChecksumGood, zeroed, [])
      case Bad => Step(IpChecksumBad, zeroed, [])
  }

  /** `sr_handlepacket`. The frame length is the buffer length. */
  function Dispatch(frame: seq<uint8>, iface: string, hit: uint32 -> bool, helpers: Helpers): (s: Step)
    ensures |s.frame| == |frame|
    ensures s.outcome == TooShort <==> |frame| < ETHER_HDR_LEN
    ensures s.frame != frame ==> s.outcome in {IpChecksumGood, IpChecksumBad}
    ensures |s.calls| <= 3
  {
    match DecodeEthernet(frame)
    case None => Step(TooShort, frame, [])
    case Some(eth) =>
      if eth.etherType == ETHERTYPE_ARP then HandleArp(frame, iface, hit, helpers)
      else if eth.etherType == ETHERTYPE_IP then HandleIp(frame, helpers)
      else Step(Unrecognized(eth.etherType), frame, [])
  }
}
