/** The key under which an ARP request's target is looked up and queued.

    The code computes it as `ntohs(arphdr->ar_tip)`: `ar_tip` is a 32-bit
    field, `ntohs` takes a 16-bit argument, so the field is first narrowed to
    its low 16 bits as the host sees them and only then byte-swapped (or not).
    Either way two of the four address bytes are lost, so distinct targets
    share a key. `TruncatedKey` models that expression; `TargetIpKey` is the
    intended key, the whole address, which tells every pair of targets apart.
    The dispatcher is stated for any key function, and the lemmas at the end
    instantiate it with each. */
module ArpKey {
  import opened Bytes
  import opened Protocol
  import opened Router
  import opened DispatchProperties

  /** The 32-bit value a host loads from four bytes in memory: a
      little-endian host reads them last byte first. */
  function HostLoad32(b: Ipv4Addr, littleEndian: bool): uint32
  {
    if littleEndian then BE32([b[3], b[2], b[1], b[0]]) else BE32(b)
  }

  /** `ntohs`: a byte swap on a little-endian host, the identity otherwise. */
  function Ntohs(v: uint16, littleEndian: bool): uint16
  {
    if littleEndian then (v % 0x100) * 0x100 + v / 0x100 else v
  }

  /** The key as written: the loaded address narrowed to 16 bits, then
      `ntohs`. On a little-endian host it is the first two address bytes,
      on a big-endian host the last two. The big-endian case assumes `ntohs`
      narrows its argument as a function taking `uint16_t` does; a library
      that defines it as the identity macro there passes all four bytes. */
  function TruncatedKey(tip: Ipv4Addr, littleEndian: bool): (k: uint32)
    ensures k == if littleEndian then BE16(tip[0], tip[1]) else BE16(tip[2], tip[3])
  {
    Ntohs(HostLoad32(tip, littleEndian) % 0x1_0000, littleEndian)
  }

  /** On either kind of host two different targets get one key. */
  lemma TruncatedKeyCollides()
    ensures TruncatedKey([10, 0, 0, 1], true) == TruncatedKey([10, 0, 0, 2], true) == 0x0A00
    ensures TruncatedKey([10, 0, 0, 1], false) == TruncatedKey([192, 168, 0, 1], false) == 0x0001
  {
  }

  /** The intended key: the whole target address in network order. */
  function TargetIpKey(tip: Ipv4Addr): (k: uint32)
    ensures k / 0x1_0000 == BE16(tip[0], tip[1]) && k % 0x1_0000 == BE16(tip[2], tip[3])
  {
    BE32(tip)
  }

  lemma TargetIpKeyInjective(a: Ipv4Addr, b: Ipv4Addr)
    ensures TargetIpKey(a) == TargetIpKey(b) <==> a == b
  {
  }

  function AsWrittenHelpers(littleEndian: bool, cksum: seq<uint8> -> uint16): Helpers
  {
    Helpers(tip => TruncatedKey(tip, littleEndian), cksum)
  }

  function CorrectedHelpers(cksum: seq<uint8> -> uint16): Helpers
  {
    Helpers(TargetIpKey, cksum)
  }

  /** A well-formed Ethernet/IPv4 ARP request for `tip`. */
  function ArpRequestFrame(tip: Ipv4Addr): (f: seq<uint8>)
    ensures |f| == ETHER_HDR_LEN + ARP_HDR_LEN
    ensures IsArpFrame(f) && ArpOpField(f) == ARP_OP_REQUEST && TargetIpField(f) == tip
  {
    var eth := EncodeEthernet(EthernetHeader(
      [0xff, 0xff, 0xff, 0xff, 0xff, 0xff], [2, 0, 0, 0, 0, 1], ETHERTYPE_ARP));
    var arp := EncodeArp(ArpHeader(
      1, ETHERTYPE_IP, 6, 4, ARP_OP_REQUEST,
      [2, 0, 0, 0, 0, 1], [10, 0, 0, 9], [0, 0, 0, 0, 0, 0], tip));
    assert (eth + arp)[ETHER_HDR_LEN..] == arp;
    eth + arp
  }

  /** As written, requests for 10.0.0.1 and 10.0.0.2 received by a
      little-endian host are looked up under the same key. */
  lemma AsWrittenLookupConflates(iface: string, hit: uint32 -> bool, cksum: seq<uint8> -> uint16)
    ensures var helpers := AsWrittenHelpers(true, cksum);
      && Dispatch(ArpRequestFrame([10, 0, 0, 1]), iface, hit, helpers).calls[0] == Lookup(0x0A00)
      && Dispatch(ArpRequestFrame([10, 0, 0, 2]), iface, hit, helpers).calls[0] == Lookup(0x0A00)
  {
  }

  /** With the intended key, two ARP requests are looked up under the same
      key exactly when they ask for the same target address. */
  lemma CorrectedLookupSeparatesTargets(
    f1: seq<uint8>, iface1: string, hit1: uint32 -> bool,
    f2: seq<uint8>, iface2: string, hit2: uint32 -> bool,
    cksum: seq<uint8> -> uint16)
    requires IsArpFrame(f1) && |f1| >= ETHER_HDR_LEN + ARP_HDR_LEN && ArpOpField(f1) == ARP_OP_REQUEST
    requires IsArpFrame(f2) && |f2| >= ETHER_HDR_LEN + ARP_HDR_LEN && ArpOpField(f2) == ARP_OP_REQUEST
    ensures var helpers := CorrectedHelpers(cksum);
      var s1 := Dispatch(f1, iface1, hit1, helpers);
      var s2 := Dispatch(f2, iface2, hit2, helpers);
      |s1.calls| > 0 && |s2.calls| > 0 &&
      (s1.calls[0] == s2.calls[0] <==> TargetIpField(f1) == TargetIpField(f2))
  {
    var helpers := CorrectedHelpers(cksum);
    ArpRequestCacheDecision(f1, iface1, hit1, helpers);
    ArpRequestCacheDecision(f2, iface2, hit2, helpers);
    TargetIpKeyInjective(TargetIpField(f1), TargetIpField(f2));
  }
}
