/** The straight-line computations of the forwarding engine: the sequence
    counter, the header an origin builds, the per-hop header rewrite, the
    header handed up at the destination and the forwarding delay. */
module Forwarding {
  import opened Base
  import opened SiftHeaders

  const MaxSeqNo: int := 65536
  const IcmpProtocol: U8 := 1
  /** The message type a forwarding node writes. */
  const ForwardMessageType: U8 := 2
  /** Base delay of every forward, in seconds. */
  const TransmissionTime: real := 0.000047
  /** Weight of the trajectory ratio in the delay. */
  const Alpha: real := 0.01

  /** A position as the mobility model reports it, in metres. */
  datatype Position = Position(x: real, y: real)

  predicate Representable(p: Position)
  {
    FitsI32(p.x) && FitsI32(p.y)
  }

  // ---------------------------------------------------------------------
  // Sequence numbers.

  /** The value GetSeqNo stores and returns: the counter plus one, modulo 65536. */
  function NextSeqNo(s: U16): (r: U16)
    ensures s < 65535 ==> r == s + 1
    ensures s == 65535 ==> r == 0
  {
    (s + 1) % MaxSeqNo
  }

  /** The counter after `n` calls of GetSeqNo. */
  function SeqNoAfter(start: U16, n: nat): U16
  {
    if n == 0 then start else NextSeqNo(SeqNoAfter(start, n - 1))
  }

  /** `n` calls advance the counter by `n` modulo 65536: from a fresh engine
      (counter 0) the first number handed out is 1, and the numbers repeat
      only after 65536 calls. */
  lemma {:induction false} SeqNoAfterCalls(start: U16, n: nat)
    ensures SeqNoAfter(start, n) == (start + n) % MaxSeqNo
  {
    if n > 0 {
      SeqNoAfterCalls(start, n - 1);
      AddModuloU16(start + n - 1, 1);
      assert SeqNoAfter(start, n) == (SeqNoAfter(start, n - 1) + 1) % MaxSeqNo;
    }
  }

  /** Two calls fewer than 65536 apart never hand out the same number. */
  lemma SeqNoDistinctWithinPeriod(start: U16, m: nat, n: nat)
    requires m < n < m + MaxSeqNo
    ensures SeqNoAfter(start, m) != SeqNoAfter(start, n)
  {
    SeqNoAfterCalls(start, m);
    SeqNoAfterCalls(start, n);
  }

  // ---------------------------------------------------------------------
  // Headers built and rewritten by the engine.

  /** The fields Send fills in; every other field keeps the constructor's value. */
  predicate SetBySend(f: Field)
  {
    f in {NextHeader, MessageType, SourceAddress, DestAddress, SourceX, SourceY,
          LastSourceX, LastSourceY, DestX, DestY, SeqNo, Ttl}
  }

  /** The header Send builds: the transport protocol as next header, type 47,
      both addresses, the source node's, this node's and the destination
      node's truncated positions, the sequence number and TTL 64. */
  function OriginHeader(protocol: U8, source: Ipv4Address, destination: Ipv4Address,
                        sourcePos: Position, ownPos: Position, destPos: Position,
                        seqNo: U16): (h: SiftHeader)
    requires Representable(sourcePos) && Representable(ownPos) && Representable(destPos)
    ensures h.nextHeader == protocol && h.messageType == GreProtocol
    ensures h.sourceAddress == source && h.destAddress == destination
    ensures h.sourceX == Trunc(sourcePos.x) && h.sourceY == Trunc(sourcePos.y)
    ensures h.lastSourceX == Trunc(ownPos.x) && h.lastSourceY == Trunc(ownPos.y)
    ensures h.destX == Trunc(destPos.x) && h.destY == Trunc(destPos.y)
    ensures h.seqNo == seqNo && h.ttl == DefaultTtl
    ensures forall f :: !SetBySend(f) ==> Get(h, f) == Get(FreshHeader(), f)
    ensures h.nodeAddresses == [] && h.pad == FreshHeader().pad
  {
    FreshHeader().(nextHeader := protocol, messageType := GreProtocol,
                   sourceAddress := source, destAddress := destination,
                   sourceX := Trunc(sourcePos.x), sourceY := Trunc(sourcePos.y),
                   lastSourceX := Trunc(ownPos.x), lastSourceY := Trunc(ownPos.y),
                   destX := Trunc(destPos.x), destY := Trunc(destPos.y),
                   seqNo := seqNo, ttl := DefaultTtl)
  }

  /** The per-hop rewrite with the next-header field left alone: segments
      left and TTL go down by one as uint8_t values (no check for zero), the
      type becomes 2, this node's truncated position becomes the last hop,
      and nothing else changes. */
  function ForwardHeader(h: SiftHeader, own: Position): (r: SiftHeader)
    requires Representable(own)
    ensures r.segmentsLeft == (h.segmentsLeft - 1) % 0x100
    ensures r.ttl == (h.ttl - 1) % 0x100
    ensures r.messageType == ForwardMessageType
    ensures r.lastSourceX == Trunc(own.x) && r.lastSourceY == Trunc(own.y)
    ensures forall f :: f !in {SegmentsLeft, Ttl, MessageType, LastSourceX, LastSourceY} ==>
      Get(r, f) == Get(h, f)
    ensures r.pad == h.pad && r.nodeAddresses == h.nodeAddresses
  {
    h.(segmentsLeft := (h.segmentsLeft - 1) % 0x100,
       messageType := ForwardMessageType,
       lastSourceX := Trunc(own.x), lastSourceY := Trunc(own.y),
       ttl := (h.ttl - 1) % 0x100)
  }

  /** The rewrite as written: the same, except that the next-header field is
      overwritten with SIFT's own protocol number, 47. */
  function ForwardHeaderAsWritten(h: SiftHeader, own: Position): (r: SiftHeader)
    requires Representable(own)
    ensures r.nextHeader == GreProtocol
    ensures forall f :: f != NextHeader ==> Get(r, f) == Get(ForwardHeader(h, own), f)
    ensures r.pad == h.pad && r.nodeAddresses == h.nodeAddresses
  {
    ForwardHeader(h, own).(nextHeader := GreProtocol)
  }

  /** As written, a header that has been forwarded once names protocol 47 as
      its payload's protocol whatever the origin put there, so the final hop
      hands the transport payload back to SIFT instead of UDP or TCP. */
  lemma ForwardAsWrittenLosesNextHeader(h: SiftHeader, own: Position)
    requires Representable(own)
    requires h.nextHeader == UdpProtocol
    ensures ForwardHeaderAsWritten(h, own).nextHeader != h.nextHeader
    ensures ForwardHeader(h, own).nextHeader == h.nextHeader
  {
  }

  /** The header after hops at each position of `path`, in order. */
  function ForwardAlong(h: SiftHeader, path: seq<Position>): SiftHeader
    requires forall i :: 0 <= i < |path| ==> Representable(path[i])
  {
    if path == [] then h else ForwardHeader(ForwardAlong(h, path[..|path| - 1]), path[|path| - 1])
  }

  /** `r` is `h` after `n` hops: same addresses, sequence number, payload
      protocol and source and destination coordinates, with TTL and segments
      left lowered by `n` modulo 256. */
  predicate HoppedFrom(r: SiftHeader, h: SiftHeader, n: nat)
  {
    && r.sourceAddress == h.sourceAddress && r.destAddress == h.destAddress
    && r.seqNo == h.seqNo && r.nextHeader == h.nextHeader
    && r.sourceX == h.sourceX && r.sourceY == h.sourceY
    && r.destX == h.destX && r.destY == h.destY
    && r.ttl == (h.ttl - n) % 0x100
    && r.segmentsLeft == (h.segmentsLeft - n) % 0x100
  }

  /** One more hop. */
  lemma ForwardStep(h: SiftHeader, before: SiftHeader, own: Position, n: nat)
    requires Representable(own) && HoppedFrom(before, h, n)
    ensures HoppedFrom(ForwardHeader(before, own), h, n + 1)
  {
    AddModuloByte(h.ttl - n, -1);
    AddModuloByte(h.segmentsLeft - n, -1);
  }

  /** Over any number of hops the packet keeps its identity (addresses and
      sequence number), its source and destination coordinates and its
      payload protocol; TTL and segments left drop by the hop count modulo
      256; the last hop is the last forwarder. */
  lemma {:induction false} ForwardAlongKeepsIdentity(h: SiftHeader, path: seq<Position>)
    requires forall i :: 0 <= i < |path| ==> Representable(path[i])
    ensures HoppedFrom(ForwardAlong(h, path), h, |path|)
    ensures path != [] ==>
      && ForwardAlong(h, path).lastSourceX == Trunc(path[|path| - 1].x)
      && ForwardAlong(h, path).lastSourceY == Trunc(path[|path| - 1].y)
  {
    if path != [] {
      var prefix := path[..|path| - 1];
      assert forall i :: 0 <= i < |prefix| ==> prefix[i] == path[i];
      ForwardAlongKeepsIdentity(h, prefix);
      ForwardStep(h, ForwardAlong(h, prefix), path[|path| - 1], |prefix|);
    }
  }

  /** A header whose TTL is 0 is still forwarded, with TTL 255. */
  lemma ForwardWrapsTtl(h: SiftHeader, own: Position)
    requires Representable(own) && h.ttl == 0
    ensures ForwardHeader(h, own).ttl == 255
  {
  }

  /** The network header synthesised for the upward hand-off at the final
      hop. ECN and DSCP are the bits of the ToS byte, so copying the ToS
      copies them. */
  datatype Ipv4Header = Ipv4Header(
    source: Ipv4Address,
    destination: Ipv4Address,
    protocol: U8,
    payloadSize: U16,
    tos: U8,
    ttl: U8)

  /** The source comes from the SIFT header, the destination is this node,
      protocol, payload size, ToS and TTL come from the carrier header. */
  function DeliveryIpHeader(h: SiftHeader, carrier: Ipv4Header, self: Ipv4Address): (r: Ipv4Header)
    ensures r.source == h.sourceAddress && r.destination == self
    ensures r.(source := carrier.source, destination := carrier.destination) == carrier
  {
    carrier.(source := h.sourceAddress, destination := self)
  }

  // ---------------------------------------------------------------------
  // The forwarding delay.

  /** A node exactly on the trajectory uses distance 1 instead of 0. */
  function ClampTrajectory(d: real): real
  {
    if d == 0.0 then 1.0 else d
  }

  /** The delay before a forward, in seconds: the base transmission time plus
      Alpha times the ratio of the node's distance from the trajectory to its
      distance from the last hop. When the node sits on the last hop the
      ratio is undefined and the delay stays at the base time. */
  function ForwardDelay(dTrajectory: real, dLastSource: real): (delay: real)
    requires dTrajectory >= 0.0 && dLastSource >= 0.0
    ensures delay >= TransmissionTime
    ensures dLastSource == 0.0 ==> delay == TransmissionTime
    ensures dLastSource > 0.0 ==>
      delay == TransmissionTime + Alpha * (ClampTrajectory(dTrajectory) / dLastSource)
  {
    if dLastSource == 0.0 then TransmissionTime
    else TransmissionTime + Alpha * (ClampTrajectory(dTrajectory) / dLastSource)
  }

  /** A double result: a finite number or +infinity. */
  datatype Extended = Finite(value: real) | PosInfinity

  /** The delay as written: the division is not guarded (the surrounding
      catch handler only catches thrown ints, and a floating-point division
      by zero throws nothing), so a zero last-hop distance gives +infinity. */
  function ForwardDelayAsWritten(dTrajectory: real, dLastSource: real): (delay: Extended)
    requires dTrajectory >= 0.0 && dLastSource >= 0.0
    ensures dLastSource > 0.0 ==> delay == Finite(ForwardDelay(dTrajectory, dLastSource))
  {
    if dLastSource == 0.0 then PosInfinity
    else Finite(TransmissionTime + Alpha * (ClampTrajectory(dTrajectory) / dLastSource))
  }

  /** As written, a node at the same truncated position as the last hop gets
      an infinite delay, which ns-3's Time cannot represent; the guarded
      delay is the base transmission time there. */
  lemma DelayAsWrittenInfiniteOnLastHop(dTrajectory: real)
    requires dTrajectory >= 0.0
    ensures ForwardDelayAsWritten(dTrajectory, 0.0) == PosInfinity
    ensures ForwardDelay(dTrajectory, 0.0) == TransmissionTime
  {
  }

  /** Farther from the trajectory, later forward (for nonzero distances). */
  lemma DelayIncreasesWithTrajectoryDistance(a: real, b: real, dLastSource: real)
    requires 0.0 < a < b && dLastSource > 0.0
    ensures ForwardDelay(a, dLastSource) < ForwardDelay(b, dLastSource)
  {
    assert a / dLastSource < b / dLastSource;
  }

  /** More progress from the last hop, earlier forward. */
  lemma DelayDecreasesWithProgress(dTrajectory: real, near: real, far: real)
    requires dTrajectory >= 0.0 && 0.0 < near < far
    ensures ForwardDelay(dTrajectory, far) < ForwardDelay(dTrajectory, near)
  {
    var t := ClampTrajectory(dTrajectory);
    assert t > 0.0;
    assert t / far < t / near;
  }

  /** The clamp: a node on the trajectory waits exactly as long as one at
      distance 1, and longer than any node closer than 1 but off it. */
  lemma ClampOrdersOnTrajectoryNodes(d: real, dLastSource: real)
    requires 0.0 < d < 1.0 && dLastSource > 0.0
    ensures ForwardDelay(0.0, dLastSource) == ForwardDelay(1.0, dLastSource)
    ensures ForwardDelay(d, dLastSource) < ForwardDelay(0.0, dLastSource)
  {
    DelayIncreasesWithTrajectoryDistance(d, 1.0, dLastSource);
  }

  /** Three collinear nodes (0,0), (100,0), (200,0), the middle one 100 m from
      the origin: it forwards before a node 50 m off the line, whatever that
      node's distance from the origin is up to 5 km. */
  lemma OnPathNodeForwardsFirst(dLastOff: real)
    requires 0.0 < dLastOff < 5000.0
    ensures ForwardDelay(0.0, 100.0) == TransmissionTime + 0.0001
    ensures ForwardDelay(0.0, 100.0) < ForwardDelay(50.0, dLastOff)
  {
    assert 50.0 / dLastOff > 0.01;
  }
}
