/** What `sr_handlepacket` promises for each kind of frame, stated over the raw
    bytes at the offsets the code's header pointers reach (Ethernet header at
    0, ARP or IPv4 header at 14), so that each lemma checks the typed decoding
    in `Router.Dispatch` against the byte layout. */
module DispatchProperties {
  import opened Bytes
  import opened Protocol
  import opened Router

  /** The ethertype as `ethertype()` reads it: bytes 12 and 13, network order. */
  function EtherTypeField(frame: seq<uint8>): uint16
    requires |frame| >= ETHER_HDR_LEN
  {
    BE16(frame[12], frame[13])
  }

  /** `ntohs(ar_op)`: bytes 6 and 7 of the ARP packet. */
  function ArpOpField(frame: seq<uint8>): uint16
    requires |frame| >= ETHER_HDR_LEN + ARP_HDR_LEN
  {
    BE16(frame[ETHER_HDR_LEN + 6], frame[ETHER_HDR_LEN + 7])
  }

  /** `ar_tip`: the last four bytes of the ARP packet. */
  function TargetIpField(frame: seq<uint8>): Ipv4Addr
    requires |frame| >= ETHER_HDR_LEN + ARP_HDR_LEN
  {
    frame[ETHER_HDR_LEN + 24..ETHER_HDR_LEN + 28]
  }

  /** `ip_sum`: bytes 10 and 11 of the IPv4 header. */
  function ChecksumField(frame: seq<uint8>): uint16
    requires |frame| >= IP_SUM_OFFSET + 2
  {
    BE16(frame[IP_SUM_OFFSET], frame[IP_SUM_OFFSET + 1])
  }

  predicate IsArpFrame(frame: seq<uint8>)
  {
    |frame| >= ETHER_HDR_LEN && EtherTypeField(frame) == ETHERTYPE_ARP
  }

  predicate IsIpFrame(frame: seq<uint8>)
  {
    |frame| >= ETHER_HDR_LEN && EtherTypeField(frame) == ETHERTYPE_IP
  }

  /** A frame shorter than an Ethernet header is dropped untouched, and only
      such a frame is. */
  lemma ShortFrameDropped(frame: seq<uint8>, iface: string, hit: uint32 -> bool, helpers: Helpers)
    ensures var s := Dispatch(frame, iface, hit, helpers);
      && (s.outcome == TooShort <==> |frame| < ETHER_HDR_LEN)
      && (|frame| < ETHER_HDR_LEN ==> s.frame == frame && s.calls == [])
  {
  }

  /** An ARP frame too short for the 28-byte ARP packet is dropped before any
      cache call, and this is the only way to get `ArpTooShort`. */
  lemma ShortArpDropped(frame: seq<uint8>, iface: string, hit: uint32 -> bool, helpers: Helpers)
    ensures var s := Dispatch(frame, iface, hit, helpers);
      && (s.outcome == ArpTooShort <==> IsArpFrame(frame) && |frame| < ETHER_HDR_LEN + ARP_HDR_LEN)
      && (s.outcome == ArpTooShort ==> s.frame == frame && s.calls == [])
  {
  }

  /** For a full-length ARP frame the opcode alone picks the arm: 1 is a
      request, 2 a reply, anything else unknown. Replies and unknown opcodes
      touch neither the buffer nor the cache. */
  lemma ArpOpcodeSelectsArm(frame: seq<uint8>, iface: string, hit: uint32 -> bool, helpers: Helpers)
    requires IsArpFrame(frame) && |frame| >= ETHER_HDR_LEN + ARP_HDR_LEN
    ensures var s := Dispatch(frame, iface, hit, helpers);
      && (s.outcome in {ArpRequestHit, ArpRequestQueued} <==> ArpOpField(frame) == ARP_OP_REQUEST)
      && (s.outcome == ArpReply <==> ArpOpField(frame) == ARP_OP_REPLY)
      && (s.outcome == ArpUnknownOp(ArpOpField(frame)) <==> ArpOpField(frame) !in {ARP_OP_REQUEST, ARP_OP_REPLY})
      && (ArpOpField(frame) != ARP_OP_REQUEST ==> s.frame == frame && s.calls == [])
  {
  }

  /** An ARP request looks the target up once under the key derived from the
      target-IP bytes. A hit ends there; a miss queues the whole, unchanged
      frame with the receiving interface exactly once and hands the queued
      request to `handle_arpreq`. */
  lemma ArpRequestCacheDecision(frame: seq<uint8>, iface: string, hit: uint32 -> bool, helpers: Helpers)
    requires IsArpFrame(frame) && |frame| >= ETHER_HDR_LEN + ARP_HDR_LEN
    requires ArpOpField(frame) == ARP_OP_REQUEST
    ensures var s := Dispatch(frame, iface, hit, helpers);
      var key := helpers.arpKey(TargetIpField(frame));
      && s.frame == frame
      && (s.outcome == ArpRequestHit <==> hit(key))
      && (hit(key) ==> s.calls == [Lookup(key)])
      && (!hit(key) ==> s.calls == [Lookup(key), QueueReq(key, frame, iface), HandleReq(key)])
  {
    assert frame[ETHER_HDR_LEN..][24..28] == TargetIpField(frame);
  }

  /** An IPv4 frame too short for the 20-byte header is dropped untouched. */
  lemma ShortIpDropped(frame: seq<uint8>, iface: string, hit: uint32 -> bool, helpers: Helpers)
    ensures var s := Dispatch(frame, iface, hit, helpers);
      && (s.outcome == IpTooShort <==> IsIpFrame(frame) && |frame| < ETHER_HDR_LEN + IP_HDR_LEN)
      && (s.outcome == IpTooShort ==> s.frame == frame && s.calls == [])
  {
  }

  /** On a full-length IPv4 frame the only change to the buffer is the two
      checksum bytes, which are zero afterwards; the TTL byte and every other
      byte keep their values, and the cache is not called. */
  lemma IpPathZeroesOnlyChecksum(frame: seq<uint8>, iface: string, hit: uint32 -> bool, helpers: Helpers)
    requires IsIpFrame(frame) && |frame| >= ETHER_HDR_LEN + IP_HDR_LEN
    ensures var s := Dispatch(frame, iface, hit, helpers);
      && |s.frame| == |frame|
      && s.frame[IP_SUM_OFFSET] == 0 && s.frame[IP_SUM_OFFSET + 1] == 0
      && (forall i :: 0 <= i < |frame| && i != IP_SUM_OFFSET && i != IP_SUM_OFFSET + 1 ==> s.frame[i] == frame[i])
      && s.frame[IP_TTL_OFFSET] == frame[IP_TTL_OFFSET]
      && s.calls == []
  {
  }

  /** The same fact in terms of headers: the Ethernet header is unchanged and
      the IPv4 header differs from the received one only in its checksum,
      which is zero. */
  lemma IpPathHeaderView(frame: seq<uint8>, iface: string, hit: uint32 -> bool, helpers: Helpers)
    requires IsIpFrame(frame) && |frame| >= ETHER_HDR_LEN + IP_HDR_LEN
    ensures var s := Dispatch(frame, iface, hit, helpers);
      && DecodeEthernet(s.frame) == DecodeEthernet(frame)
      && DecodeIp(s.frame[ETHER_HDR_LEN..]) == Some(DecodeIp(frame[ETHER_HDR_LEN..]).value.(sum := 0))
  {
    var s := Dispatch(frame, iface, hit, helpers);
    assert s.frame == ZeroChecksum(frame);
    assert s.frame[0..6] == frame[0..6];
    assert s.frame[6..12] == frame[6..12];
    var a := s.frame[ETHER_HDR_LEN..];
    var b := frame[ETHER_HDR_LEN..];
    assert forall i :: 12 <= i < 20 ==> a[i] == b[i];
    assert a[12..16] == b[12..16];
    assert a[16..20] == b[16..20];
  }

  /** On a full-length IPv4 frame the verdict is `IpChecksumGood` exactly when
      the received checksum equals `cksum` of the zeroed frame, and
      `IpChecksumBad` otherwise; no third outcome (the TTL arm) occurs. */
  lemma IpChecksumVerdict(frame: seq<uint8>, iface: string, hit: uint32 -> bool, helpers: Helpers)
    requires IsIpFrame(frame) && |frame| >= ETHER_HDR_LEN + IP_HDR_LEN
    ensures var s := Dispatch(frame, iface, hit, helpers);
      var good := ChecksumField(frame) == helpers.cksum(ZeroChecksum(frame));
      && (s.outcome == IpChecksumGood <==> good)
      && (s.outcome == IpChecksumBad <==> !good)
  {
  }

  /** A frame of at least 14 bytes with any ethertype other than ARP or IPv4
      is reported with its ethertype, and neither the buffer nor the cache is
      touched. */
  lemma UnrecognizedEtherType(frame: seq<uint8>, iface: string, hit: uint32 -> bool, helpers: Helpers)
    ensures var s := Dispatch(frame, iface, hit, helpers);
      && (s.outcome.Unrecognized? <==>
            |frame| >= ETHER_HDR_LEN && EtherTypeField(frame) !in {ETHERTYPE_ARP, ETHERTYPE_IP})
      && (s.outcome.Unrecognized? ==> s.outcome.etherType == EtherTypeField(frame) && s.frame == frame && s.calls == [])
  {
  }

  /** Only an ARP request that misses the cache queues anything, and it
      queues the received frame itself. */
  lemma OnlyMissesQueue(frame: seq<uint8>, iface: string, hit: uint32 -> bool, helpers: Helpers)
    ensures var s := Dispatch(frame, iface, hit, helpers);
      forall c :: c in s.calls && c.QueueReq? ==>
        s.outcome == ArpRequestQueued && c.packet == frame && c.iface == iface
  {
  }
}
