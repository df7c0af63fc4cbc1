# Frame dispatcher of a software IP router, in Dafny

This project models `sr_handlepacket`, the entry point of a small software
router. The router receives one raw Ethernet frame at a time, together with the
name of the interface it arrived on. The function then does the following:

- It drops frames shorter than the 14-byte Ethernet II header.
- It classifies the frame by ethertype (0x0806 ARP, 0x0800 IPv4, as in RFC 894).
- For ARP, it checks for the 28-byte Ethernet/IPv4 packet of RFC 826, then
  dispatches on the opcode. A request looks up the ARP cache. On a miss it
  queues the frame and hands the queued request to `handle_arpreq`.
- For IPv4, it checks for the 20-byte fixed header of section 3.1 of RFC 791.
  It zeroes the header-checksum field in the buffer and compares the saved
  value with `cksum` of the zeroed frame.

A call is modelled as a pure function, `Router.Dispatch`. It returns a `Step`
with three parts:

- the outcome the code reaches (`TooShort`, `ArpTooShort`, `ArpRequestHit`,
  `ArpRequestQueued`, `ArpReply`, `ArpUnknownOp`, `IpTooShort`,
  `IpChecksumGood`, `IpChecksumBad` or `Unrecognized`);
- the frame buffer as the call leaves it;
- the calls the code makes into the ARP cache, in order.

Modules:

- `Bytes`: byte and word types, and network-order reads and writes.
- `Protocol`: the three header layouts, with decoders that check length
  before reading, encoders, and round-trip lemmas.
- `Router`: the dispatcher itself.
- `DispatchProperties`: the per-outcome guarantees, stated over raw bytes at
  the offsets the code's header pointers reach.
- `Stream`: repeated calls in arrival order, and what a run leaves queued for
  resolution.
- `ArpKey`: the cache key computed from the ARP target address, as written
  and as intended (see Findings).

Helpers whose code is not part of this model enter as parameters and keep no
semantics of their own:

- `hit: uint32 -> bool` is the answer of `sr_arpcache_lookup` (found or not).
- `Helpers.arpKey` is the cache key derived from the four target-IP bytes.
- `Helpers.cksum` is `cksum`, applied to the frame whose checksum field is
  already zero.

`ethertype()` and `ntohs(ar_op)` are modelled as big-endian reads of the
fields, which is the wire format.

The code loads the saved checksum `iphdr->ip_sum` with no `ntohs`
(sr_router.c:127), so it reads the two bytes in host order. The model reads
them in network order instead. The two are equivalent here only because
`Helpers.cksum` is a free parameter: a byte swap is a bijection on 16-bit
values, so a host-order comparison against `cksum` is the same as a
network-order comparison against the byte-swapped `cksum`.

The frame length `len` is the length of the buffer.

Bytes are the subset type `uint8` of `int` (0 to 255), not `bv8`.

## Model

| member | source | states |
|---|---|---|
| Bytes.BE16 | sr_router.c:101 | a network-order 16-bit field has its first byte as high byte and its second as low byte, so the value determines both bytes |
| Bytes.BE32 | sr_router.c:103 | a 4-byte field read in network order has the first two bytes as its high half and the last two as its low half |
| Bytes.BE32Injective | sr_router.c:103 | distinct 4-byte addresses have distinct 32-bit values |
| Protocol.DecodeEthernet | sr_router.c:91-96 | the Ethernet header is readable exactly when the frame has at least 14 bytes, and its ethertype comes from bytes 12-13 in network order |
| Protocol.EncodeEthernet | sr_router.c:96 | the header is written as 14 bytes, with the ethertype in bytes 12-13 |
| Protocol.EthernetRoundTrip | sr_router.c:96 | decoding an encoded Ethernet header gives it back, whatever payload follows |
| Protocol.EthernetDecodeEncode | sr_router.c:96 | re-encoding the decoded header reproduces the first 14 bytes of the frame |
| Protocol.DecodeArp | sr_router.c:89-103 | the ARP packet is readable exactly when at least 28 bytes follow the Ethernet header; the opcode is bytes 6-7 and the target IP is bytes 24-27 |
| Protocol.EncodeArp | sr_router.c:89 | an ARP packet is written as 28 bytes, with the opcode at 6-7 and the target IP at 24-27 |
| Protocol.ArpRoundTrip | sr_router.c:89 | decoding an encoded ARP packet gives it back |
| Protocol.ArpDecodeEncode | sr_router.c:89 | re-encoding the decoded ARP packet reproduces its 28 bytes |
| Protocol.DecodeIp | sr_router.c:88-127 | the fixed IPv4 header is readable exactly when at least 20 bytes follow the Ethernet header; TTL is byte 8 and the checksum is bytes 10-11 |
| Protocol.EncodeIp | sr_router.c:88 | a fixed IPv4 header is written as 20 bytes, with TTL at 8 and the checksum at 10-11 |
| Protocol.IpRoundTrip | sr_router.c:88 | decoding an encoded fixed IPv4 header gives it back |
| Protocol.IpDecodeEncode | sr_router.c:88 | re-encoding the decoded fixed IPv4 header reproduces its 20 bytes |
| Router.CompareChecksum | sr_router.c:130-144 | the first arm is taken exactly when the checksums are equal, the second exactly when they differ, and the TTL arm never |
| Router.ZeroChecksum | sr_router.c:127-128 | the checksum bytes (frame offsets 24 and 25) become zero; length and every other byte are unchanged |
| Router.HandleArp | sr_router.c:96-118 | the ARP arm never changes the buffer and calls the cache exactly when the outcome is a request hit or a queued request |
| Router.HandleIp | sr_router.c:120-145 | the IPv4 arm never calls the cache, ends in too-short, good or bad, and is too-short exactly when the frame has fewer than 34 bytes |
| Router.Dispatch | sr_router.c:69-149 | the buffer length is kept; `TooShort` iff fewer than 14 bytes; only the two checksum verdicts change the buffer; at most three cache calls |
| DispatchProperties.ShortFrameDropped | sr_router.c:91-94 | `TooShort` iff fewer than 14 bytes, and then the buffer is unchanged and no cache call is made |
| DispatchProperties.ShortArpDropped | sr_router.c:96-98 | `ArpTooShort` iff the ethertype is 0x0806 and the frame has 14 to 41 bytes, and then no buffer change and no cache call |
| DispatchProperties.ArpOpcodeSelectsArm | sr_router.c:101-117 | on a full ARP frame: request outcomes iff opcode 1, `ArpReply` iff opcode 2, `ArpUnknownOp` iff any other opcode; replies and unknown opcodes touch neither the buffer nor the cache |
| DispatchProperties.ArpRequestCacheDecision | sr_router.c:103-112 | a request looks up the key of its target-IP bytes; hit iff `ArpRequestHit`, then only that lookup; on a miss, one queue call carrying the whole unchanged frame and interface, then `handle_arpreq` on it |
| DispatchProperties.ShortIpDropped | sr_router.c:120-124 | `IpTooShort` iff the ethertype is 0x0800 and the frame has 14 to 33 bytes, and then the checksum field and the rest of the buffer are untouched |
| DispatchProperties.IpPathZeroesOnlyChecksum | sr_router.c:125-129 | on a full IPv4 frame, the two checksum bytes are zero afterwards and every other byte, TTL included, is unchanged; no cache call |
| DispatchProperties.IpPathHeaderView | sr_router.c:127-128 | on a full IPv4 frame, the Ethernet header is unchanged and the IPv4 header differs from the received one only in a zero checksum |
| DispatchProperties.IpChecksumVerdict | sr_router.c:127-144 | `IpChecksumGood` iff the saved checksum equals `cksum` of the zeroed frame, `IpChecksumBad` iff not; so the TTL arm is never reached |
| DispatchProperties.UnrecognizedEtherType | sr_router.c:147-148 | `Unrecognized` iff 14+ bytes and the ethertype is neither 0x0806 nor 0x0800; it carries the ethertype; no buffer change and no cache call |
| DispatchProperties.OnlyMissesQueue | sr_router.c:103-112 | every queue call comes from an ARP request that missed, and carries the received frame and interface |
| Stream.CallLog | sr_router.c:57-67 | a run of n calls makes at most 3n cache calls |
| Stream.StepQueue | sr_router.c:103-112 | one call queues exactly one frame (its own, under its target's key) when its outcome is `ArpRequestQueued`, and nothing otherwise |
| Stream.MissMeansUnansweredRequest | sr_router.c:96-112 | an arrival counts as a miss iff its bytes make it a full-length ARP frame with opcode 1 whose target key the cache does not hold |
| Stream.RunQueuesAtMostOncePerFrame | sr_router.c:103-112 | a run queues at most one frame per arrival, and every queued entry is one of the run's queue calls |
| Stream.QueuedMatchesMisses | sr_router.c:103-112 | over a run, the frames handed to the queue are exactly the ARP requests that missed the cache, in arrival order |
| Stream.ProcessArrivals | sr_router.c:57-67 | processing frames one at a time gives each frame its own dispatcher outcome and buffer, and queues exactly the missed ARP requests in order |
| ArpKey.TruncatedKey | sr_router.c:103 | the key as written keeps only the first two target-IP bytes on a little-endian host and only the last two on a big-endian host |
| ArpKey.TruncatedKeyCollides | sr_router.c:103 | as written, 10.0.0.1 and 10.0.0.2 share a key on a little-endian host, and 10.0.0.1 and 192.168.0.1 share one on a big-endian host |
| ArpKey.TargetIpKey | sr_router.c:103 | the intended key keeps all four address bytes: the first two as the high half and the last two as the low half |
| ArpKey.TargetIpKeyInjective | sr_router.c:103 | the intended keys of two target addresses are equal iff the addresses are |
| ArpKey.AsWrittenLookupConflates | sr_router.c:103-110 | as written, ARP requests for 10.0.0.1 and 10.0.0.2 on a little-endian host are looked up under the same key, 0x0A00 |
| ArpKey.CorrectedLookupSeparatesTargets | sr_router.c:103-110 | with the intended key, two ARP requests are looked up under one key iff they have the same target address |

## Left out

- `sr_init` (sr_router.c:33-51) is left out. It initialises the cache and starts the cache-timeout thread, which is process setup and concurrency.
- The `assert(sr)`, `assert(packet)` and `assert(interface)` checks are left out. They test for null pointers, which have no counterpart in a value model.
- All `printf` and `fprintf` logging is left out. It has no effect on the outcome or the buffer.
- `free(entry)` on a cache hit is left out. It is memory management.
- The bodies of `cksum`, `sr_arpcache_lookup`, `sr_arpcache_queuereq` and `handle_arpreq` are left out. The files that hold them are not part of this model, so they appear only as parameters or as recorded calls.
- No request de-duplication, retry or expiry is modelled behind `sr_arpcache_queuereq` or `handle_arpreq`.
- `ethertype()` is written in a file that is not part of this model. It is modelled as the network-order read of bytes 12-13.
- Router.HandleIp: the byte range that `cksum` covers is left out. The code passes the raw, unswapped `ip_len` total-length field as the length (sr_router.c:129), which can reach past the buffer. The model gives `cksum` the whole zeroed frame instead of that range.
- The routing-table lookup, ICMP generation, ARP reply synthesis, cache insertion on replies and the resolution sweeper are left out. None of them occurs in `sr_handlepacket` as written.
- A complete router would also reply to ARP requests for its own addresses, insert ARP replies into the cache, check the ARP hardware and protocol fields, bound the checksum by the header-length field, and decrement TTL. `sr_handlepacket` as written does none of these, and the model follows the code. In particular, the TTL decrement sits in an arm that cannot be reached (`Router.CompareChecksum`).
- The transport loop that calls the dispatcher is not part of this model. The `Stream` module models only its documented contract: one call per frame, in arrival order, each call seeing the cache as it is at that moment.

## Findings

| source | as written | input that shows it | evidently intended | confidence | as-written member | corrected member |
|---|---|---|---|---|---|---|
| sr_router.c:103 | the cache key is `ntohs(arphdr->ar_tip)`, which narrows the 32-bit target address to 16 bits | ARP requests for 10.0.0.1 and 10.0.0.2 on a little-endian host, both keyed 0x0A00; 10.0.0.1 and 192.168.0.1 on a big-endian host, both keyed 0x0001 | the whole 32-bit target address is the key, so distinct targets never share a lookup or a pending request | high for the little-endian case; medium for the big-endian case, where a C library may define `ntohs(x)` as plain `(x)` and pass the whole 32-bit `ar_tip` through; not executed | ArpKey.TruncatedKey | ArpKey.TargetIpKey |

The collision is shown at the dispatcher level by
`ArpKey.AsWrittenLookupConflates`. The corrected key is proved injective by
`ArpKey.TargetIpKeyInjective`. `ArpKey.CorrectedLookupSeparatesTargets` shows
that with this key, the dispatcher looks up two requests under one key exactly
when their targets agree.

The big-endian half of `ArpKey.TruncatedKey` assumes that `ntohs` narrows its
argument to 16 bits, as a function taking `uint16_t` does. Where `ntohs` is a
macro that expands to its argument unchanged, the big-endian key is the whole
address and no collision occurs there.

The dispatcher is stated for any key function. So every property in
`DispatchProperties` and `Stream` holds for the corrected key as well as for
the key as written.
