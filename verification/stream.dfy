/** The dispatcher over a run of frames. The transport calls
    `sr_handlepacket` once per received frame, one frame at a time and in
    arrival order; each call sees the ARP cache as it is at that moment, so
    every arrival carries its own lookup answer. The property of interest is
    what the run leaves queued for resolution: exactly the ARP requests that
    missed the cache, each with its own frame and interface, in arrival order. */
module Stream {
  import opened Bytes
  import opened Protocol
  import opened Router
  import opened DispatchProperties

  datatype Arrival = Arrival(frame: seq<uint8>, iface: string, hit: uint32 -> bool)

  /** A frame handed to `sr_arpcache_queuereq`, under its cache key. */
  datatype Pending = Pending(ip: uint32, packet: seq<uint8>, iface: string)

  function StepOf(a: Arrival, helpers: Helpers): Step
  {
    Dispatch(a.frame, a.iface, a.hit, helpers)
  }

  /** The cache calls of a run, in the order they are made. */
  function CallLog(arrivals: seq<Arrival>, helpers: Helpers): (log: seq<CacheCall>)
    ensures |log| <= 3 * |arrivals|
    decreases |arrivals|
  {
    if |arrivals| == 0 then []
    else CallLog(arrivals[..|arrivals| - 1], helpers) + StepOf(arrivals[|arrivals| - 1], helpers).calls
  }

  /** The queue requests in a call log, in order. */
  function Queued(log: seq<CacheCall>): (q: seq<Pending>)
    ensures forall p :: p in q ==> QueueReq(p.ip, p.packet, p.iface) in log
    decreases |log|
  {
    if |log| == 0 then []
    else
      var head := if log[0].QueueReq? then [Pending(log[0].ip, log[0].packet, log[0].iface)] else [];
      head + Queued(log[1..])
  }

  /** What an arrival should leave queued, read off its outcome and its raw
      target-IP bytes rather than off the calls. */
  function ExpectedQueue(a: Arrival, helpers: Helpers): seq<Pending>
  {
    if StepOf(a, helpers).outcome == ArpRequestQueued && |a.frame| >= ETHER_HDR_LEN + ARP_HDR_LEN
    then [Pending(helpers.arpKey(TargetIpField(a.frame)), a.frame, a.iface)]
    else []
  }

  /** The ARP requests of a run that missed the cache, in arrival order. */
  function Misses(arrivals: seq<Arrival>, helpers: Helpers): seq<Pending>
    decreases |arrivals|
  {
    if |arrivals| == 0 then []
    else Misses(arrivals[..|arrivals| - 1], helpers) + ExpectedQueue(arrivals[|arrivals| - 1], helpers)
  }

  /** An arrival counts as a miss exactly when its raw bytes make it a
      full-length ARP request whose target key the cache does not hold. */
  lemma MissMeansUnansweredRequest(a: Arrival, helpers: Helpers)
    ensures ExpectedQueue(a, helpers) != [] <==>
      && IsArpFrame(a.frame) && |a.frame| >= ETHER_HDR_LEN + ARP_HDR_LEN
      && ArpOpField(a.frame) == ARP_OP_REQUEST
      && !a.hit(helpers.arpKey(TargetIpField(a.frame)))
  {
    ShortArpDropped(a.frame, a.iface, a.hit, helpers);
    if IsArpFrame(a.frame) && |a.frame| >= ETHER_HDR_LEN + ARP_HDR_LEN {
      ArpOpcodeSelectsArm(a.frame, a.iface, a.hit, helpers);
      if ArpOpField(a.frame) == ARP_OP_REQUEST {
        ArpRequestCacheDecision(a.frame, a.iface, a.hit, helpers);
      }
    }
  }

  lemma {:induction false} MissesBound(arrivals: seq<Arrival>, helpers: Helpers)
    ensures |Misses(arrivals, helpers)| <= |arrivals|
    decreases |arrivals|
  {
    if |arrivals| > 0 {
      MissesBound(arrivals[..|arrivals| - 1], helpers);
    }
  }

  /** A run queues at most one frame per arrival, and every queued entry is
      one of the run's queue calls. */
  lemma RunQueuesAtMostOncePerFrame(arrivals: seq<Arrival>, helpers: Helpers)
    ensures |Queued(CallLog(arrivals, helpers))| <= |arrivals|
    ensures forall p :: p in Queued(CallLog(arrivals, helpers)) ==>
      QueueReq(p.ip, p.packet, p.iface) in CallLog(arrivals, helpers)
  {
    QueuedMatchesMisses(arrivals, helpers);
    MissesBound(arrivals, helpers);
  }

  lemma {:induction false} QueuedAppend(a: seq<CacheCall>, b: seq<CacheCall>)
    ensures Queued(a + b) == Queued(a) + Queued(b)
    decreases |a|
  {
    if |a| == 0 {
      assert a + b == b;
    } else {
      assert (a + b)[0] == a[0];
      assert (a + b)[1..] == a[1..] + b;
      QueuedAppend(a[1..], b);
    }
  }

  /** One call queues what its outcome says it should. */
  lemma StepQueue(a: Arrival, helpers: Helpers)
    ensures Queued(StepOf(a, helpers).calls) == ExpectedQueue(a, helpers)
  {
    var s := StepOf(a, helpers);
    if s.outcome == ArpRequestQueued {
      ShortArpDropped(a.frame, a.iface, a.hit, helpers);
      ArpOpcodeSelectsArm(a.frame, a.iface, a.hit, helpers);
      ArpRequestCacheDecision(a.frame, a.iface, a.hit, helpers);
      var key := helpers.arpKey(TargetIpField(a.frame));
      assert s.calls == [Lookup(key), QueueReq(key, a.frame, a.iface), HandleReq(key)];
      assert Queued(s.calls[2..]) == [];
      assert Queued(s.calls[1..]) == [Pending(key, a.frame, a.iface)];
    } else {
      OnlyMissesQueue(a.frame, a.iface, a.hit, helpers);
      QueuedNone(s.calls);
    }
  }

  /** A log with no queue request queues nothing. */
  lemma {:induction false} QueuedNone(log: seq<CacheCall>)
    requires forall c :: c in log ==> !c.QueueReq?
    ensures Queued(log) == []
    decreases |log|
  {
    if |log| > 0 {
      assert log[0] in log;
      assert forall c :: c in log[1..] ==> c in log;
      QueuedNone(log[1..]);
    }
  }

  /** Over a whole run, the frames handed to the cache queue are exactly the
      ARP requests that missed, in the order they arrived. */
  lemma {:induction false} QueuedMatchesMisses(arrivals: seq<Arrival>, helpers: Helpers)
    ensures Queued(CallLog(arrivals, helpers)) == Misses(arrivals, helpers)
    decreases |arrivals|
  {
    if |arrivals| > 0 {
      var n := |arrivals| - 1;
      QueuedMatchesMisses(arrivals[..n], helpers);
      QueuedAppend(CallLog(arrivals[..n], helpers), StepOf(arrivals[n], helpers).calls);
      StepQueue(arrivals[n], helpers);
    }
  }

  /** Feeds the frames to the dispatcher one at a time, collecting each
      call's outcome and resulting buffer and the cache calls of the run. */
  method ProcessArrivals(arrivals: seq<Arrival>, helpers: Helpers)
    returns (outcomes: seq<Outcome>, frames: seq<seq<uint8>>, log: seq<CacheCall>)
    ensures |outcomes| == |arrivals| && |frames| == |arrivals| &&
      forall i :: 0 <= i < |arrivals| ==>
        outcomes[i] == StepOf(arrivals[i], helpers).outcome && frames[i] == StepOf(arrivals[i], helpers).frame
    ensures log == CallLog(arrivals, helpers)
    ensures Queued(log) == Misses(arrivals, helpers)
  {
    outcomes, frames, log := [], [], [];
    var i := 0;
    while i < |arrivals|
      invariant 0 <= i <= |arrivals|
      invariant |outcomes| == i && |frames| == i
      invariant forall j :: 0 <= j < i ==>
        outcomes[j] == StepOf(arrivals[j], helpers).outcome && frames[j] == StepOf(arrivals[j], helpers).frame
      invariant log == CallLog(arrivals[..i], helpers)
    {
      var s := Dispatch(arrivals[i].frame, arrivals[i].iface, arrivals[i].hit, helpers);
      assert arrivals[..i + 1][..i] == arrivals[..i];
      outcomes := outcomes + [s.outcome];
      frames := frames + [s.frame];
      log := log + s.calls;
      i := i + 1;
    }
    assert arrivals[..i] == arrivals;
    QueuedMatchesMisses(arrivals, helpers);
  }
}
