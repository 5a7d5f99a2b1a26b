/** The SIFT forwarding engine of one node: sequence numbering and
    origination on the way down, and on the way up the decision between
    dropping, delivering and scheduling a delayed forward, with the
    duplicate buffer and the table of pending forwards it keeps. */
module Routing {
  import opened Base
  import opened SiftHeaders
  import opened Geo
  import opened Forwarding
  import opened PendingTables

  /** SIFT's protocol number, the one every packet it sends down carries. */
  const ProtocolNumber: U8 := GreProtocol

  /** The statuses an upper-layer protocol's receive can return. */
  datatype RxStatus = RxOk | RxEndpointClosed | RxCsumFailed | RxEndpointUnreach

  /** One call of the downward send callback: packet, source, next hop and
      the protocol number given to the network layer. */
  datatype Transmission = Transmission(packet: Packet, source: Ipv4Address, nextHop: Ipv4Address, protocol: U8)

  /** One call of the upper-layer protocol's receive at the final hop. */
  datatype Upcall = Upcall(protocol: U8, payload: seq<Byte>, ipHeader: Ipv4Header)

  /** The branch Receive takes. */
  datatype Decision = DropUnspecified | DropOverlap | DropDuplicate | Deliver | Forward

  /** What Receive did. */
  datatype ReceiveOutcome =
    | Dropped(reason: Decision)
    | Delivered(upcall: Upcall, status: RxStatus)
    | MissingHandler(protocol: U8)
    | Scheduled(pending: PendingForward)

  /** The status Receive returns; None where the source stops the
      simulation with a fatal error (no protocol for the next header). */
  function StatusOf(o: ReceiveOutcome): (s: Option<RxStatus>)
    ensures o.Dropped? ==> s == Some(RxEndpointUnreach)
    ensures o.Scheduled? ==> s == Some(RxOk)
    ensures o.Delivered? ==> s == Some(o.status)
    ensures s.None? <==> o.MissingHandler?
  {
    match o
    case Dropped(_) => Some(RxEndpointUnreach)
    case Delivered(_, status) => Some(status)
    case MissingHandler(_) => None
    case Scheduled(_) => Some(RxOk)
  }

  /** The header Receive works on: the one removed from the packet, read
      into a fresh header, so the address vector is empty. */
  function Received(p: Packet): (h: SiftHeader)
    ensures h.nodeAddresses == [] && KeyOfHeader(h) == KeyOf(p)
  {
    p.header.(nodeAddresses := FreshHeader().nodeAddresses)
  }

  /** Removing the header from the packet's bytes gives exactly that header. */
  lemma ReceivedIsDecoded(p: Packet, order: ByteOrder)
    ensures Deserialize(FreshHeader(), WireBytes(p, order), order)
              == Some(Decoded(Received(p), HeaderSize))
  {
    SerializeRoundTrip(p.header, FreshHeader(), p.payload, order);
  }

  /** This node sits where the packet's source was, at integer precision. */
  predicate OverlapsSource(h: SiftHeader, own: Position)
  {
    Trunc(own.x) == h.sourceX && Trunc(own.y) == h.sourceY
  }

  /** The branch Receive takes for header `h` at position `own`, with the
      buffer `buf` at time `now`, on the node whose address is `self`. */
  function Decide(h: SiftHeader, own: Position, buf: seq<BufferEntry>, now: Time,
                  self: Ipv4Address): Decision
  {
    if h.destAddress == Unspecified then DropUnspecified
    else if OverlapsSource(h, own) then DropOverlap
    else if Scan(buf, now, KeyOfHeader(h)).duplicate.Some? then DropDuplicate
    else if h.destAddress == self then Deliver
    else Forward
  }

  /** A packet is handled (delivered or forwarded) exactly when it has a
      destination, this node is not at its source and no live copy is
      buffered; it is delivered exactly when, in addition, it is addressed
      to this node. */
  lemma DecideHandles(h: SiftHeader, own: Position, buf: seq<BufferEntry>, now: Time,
                      self: Ipv4Address)
    ensures var d := Decide(h, own, buf, now, self);
      (d == Deliver || d == Forward) <==>
        && h.destAddress != Unspecified
        && !OverlapsSource(h, own)
        && forall e :: e in buf ==> !Matches(e, now, KeyOfHeader(h))
    ensures Decide(h, own, buf, now, self) == Deliver <==>
      (Decide(h, own, buf, now, self) == Deliver || Decide(h, own, buf, now, self) == Forward)
      && h.destAddress == self
  {
    ScanFindsDuplicate(buf, now, KeyOfHeader(h));
    if exists e :: e in buf && Matches(e, now, KeyOfHeader(h)) {
      var e :| e in buf && Matches(e, now, KeyOfHeader(h));
      var i :| 0 <= i < |buf| && buf[i] == e;
    }
  }

  /** A node that sent or received a packet drops every copy of it that
      comes back within three seconds: its own echo and the copies its
      neighbours forward. */
  lemma EchoWithinWindowDropped(buf: seq<BufferEntry>, p: Packet, at: Time,
                                q: Packet, own: Position, now: Time, self: Ipv4Address)
    requires at <= now < at + DedupWindow
    requires KeyOf(q) == KeyOf(p)
    ensures Decide(Received(q), own, buf + [BufferEntry(p, at)], now, self).DropUnspecified?
         || Decide(Received(q), own, buf + [BufferEntry(p, at)], now, self).DropOverlap?
         || Decide(Received(q), own, buf + [BufferEntry(p, at)], now, self).DropDuplicate?
  {
    InsertedIsDuplicateWithinWindow(buf, p, at, now);
  }

  /** A forwarded copy has the key of the packet it was made from, so a node
      that already buffered the packet treats the copy as a duplicate. */
  lemma ForwardedCopyHasSameKey(p: Packet, own: Position)
    requires Representable(own)
    ensures KeyOf(Packet(ForwardHeader(Received(p), own), p.payload)) == KeyOf(p)
  {
  }

  /** The pending forward Receive schedules for `p`: the rewritten header
      over the same payload, the computed delay, the packet's source and
      SIFT's protocol number, timer running. */
  function ForwardOf(p: Packet, own: Position, dTrajectory: real, dLastSource: real): (t: PendingForward)
    requires Representable(own) && dTrajectory >= 0.0 && dLastSource >= 0.0
    ensures TimerKey(t) == KeyOf(p) && t.state == Running
    ensures t.delay >= TransmissionTime
  {
    PendingForward(Packet(ForwardHeader(Received(p), own), p.payload),
                   ForwardDelay(dTrajectory, dLastSource),
                   Received(p).sourceAddress, ProtocolNumber, Running)
  }

  /** The upcall at the final hop: the next-header protocol receives the
      payload under a network header naming the SIFT source and this node. */
  function UpcallOf(p: Packet, ip: Ipv4Header, self: Ipv4Address): (u: Upcall)
    ensures u.protocol == p.header.nextHeader && u.payload == p.payload
    ensures u.ipHeader.source == p.header.sourceAddress && u.ipHeader.destination == self
  {
    Upcall(Received(p).nextHeader, p.payload, DeliveryIpHeader(Received(p), ip, self))
  }

  /** After a schedule, the table holds exactly one timer for the key, the
      new one, and keys stay unique. */
  lemma ScheduleLeavesOneTimer(ts: seq<PendingForward>, t: PendingForward)
    requires UniqueKeys(ts)
    ensures UniqueKeys(Resweep(ts, TimerKey(t)) + [t])
    ensures FindKey(Resweep(ts, TimerKey(t)) + [t], TimerKey(t)) == Some(|Resweep(ts, TimerKey(t))|)
  {
    var r := Resweep(ts, TimerKey(t));
    ResweepUnique(ts, TimerKey(t));
    SnocUnique(r, t);
    var f := FindKey(r + [t], TimerKey(t));
    assert (r + [t])[|r|] == t;
  }

  /** What ScheduleTimer's sweep will still keep of the entries from `i`
      on, depending on whether it has met the key already. */
  function Unswept(ts: seq<PendingForward>, i: nat, k: PacketKey, matchFound: bool): seq<PendingForward>
    requires i <= |ts|
  {
    if matchFound then Survivors(ts[i..]) else Resweep(ts[i..], k)
  }

  /** One step of ScheduleTimer's loop. */
  lemma UnsweptStep(ts: seq<PendingForward>, i: nat, k: PacketKey, matchFound: bool)
    requires i < |ts|
    ensures TimerKey(ts[i]) == k && !matchFound ==>
      Unswept(ts, i, k, matchFound) == Unswept(ts, i + 1, k, true)
    ensures !(TimerKey(ts[i]) == k && !matchFound) ==>
      Unswept(ts, i, k, matchFound)
        == (if ts[i].state == Running then [ts[i]] else []) + Unswept(ts, i + 1, k, matchFound)
  {
    assert ts[i..][0] == ts[i] && ts[i..][1..] == ts[i + 1..];
  }

  /** After a cancel, no timer for the key is left to fire. */
  lemma CancelledNeverFires(ts: seq<PendingForward>, k: PacketKey)
    requires UniqueKeys(ts)
    ensures FindKey(RemoveFirst(ts, k), k).None?
  {
    RemoveFirstClears(ts, k);
  }

  /** The engine of one node. */
  class SiftRouting {
    /** m_seqNo: the last sequence number handed out. */
    var seqNo: U16
    /** m_buffer: packets sent or received recently, with their times. */
    var buffer: seq<BufferEntry>
    /** m_timer: the pending forwards. */
    var timers: seq<PendingForward>
    /** m_state: the geographic store. */
    const state: SiftGeo
    /** m_mainAddress and m_broadcast of the node's interface. */
    const mainAddress: Ipv4Address
    const broadcast: Ipv4Address

    ghost predicate Valid()
      reads this, state
    {
      UniqueKeys(timers) && DistinctAddresses(state.geographicSet)
    }

    constructor (mainAddress: Ipv4Address, broadcast: Ipv4Address)
      ensures seqNo == 0 && buffer == [] && timers == []
      ensures fresh(state) && state.geographicSet == []
      ensures this.mainAddress == mainAddress && this.broadcast == broadcast
      ensures Valid()
    {
      seqNo := 0;
      buffer := [];
      timers := [];
      state := new SiftGeo();
      this.mainAddress := mainAddress;
      this.broadcast := broadcast;
    }

    method SetSeqNo(s: U16)
      modifies this`seqNo
      ensures seqNo == s
    {
      seqNo := s;
    }

    /** GetSeqNo: advance the counter modulo 65536 and return the new value. */
    method GetSeqNo() returns (s: U16)
      modifies this`seqNo
      ensures s == seqNo == NextSeqNo(old(seqNo))
    {
      seqNo := (seqNo + 1) % MaxSeqNo;
      s := seqNo;
    }

    /** Send: nothing when source and destination coincide or the protocol
        is ICMP; otherwise the packet gets an origin header with the next
        sequence number, is buffered for duplicate detection and goes to
        the broadcast address under SIFT's protocol number. The three
        positions are what the mobility models of the source node, this
        node and the destination node report. */
    method Send(payload: seq<Byte>, source: Ipv4Address, destination: Ipv4Address, protocol: U8,
                sourcePos: Position, ownPos: Position, destPos: Position, now: Time)
      returns (tx: Option<Transmission>)
      requires Valid()
      requires source != destination && protocol != IcmpProtocol ==>
        Representable(sourcePos) && Representable(ownPos) && Representable(destPos)
      modifies this
      ensures Valid() && timers == old(timers)
      ensures source == destination || protocol == IcmpProtocol ==>
        tx.None? && seqNo == old(seqNo) && buffer == old(buffer)
      ensures source != destination && protocol != IcmpProtocol ==>
        var pkt := Packet(OriginHeader(protocol, source, destination, sourcePos, ownPos, destPos,
                                       NextSeqNo(old(seqNo))), payload);
        && seqNo == NextSeqNo(old(seqNo))
        && buffer == old(buffer) + [BufferEntry(pkt, now)]
        && tx == Some(Transmission(pkt, source, broadcast, ProtocolNumber))
    {
      if source == destination {
        return None;
      }
      if protocol == IcmpProtocol {
        return None;
      }
      var s := GetSeqNo();
      var header := OriginHeader(protocol, source, destination, sourcePos, ownPos, destPos, s);
      var pkt := Packet(header, payload);
      buffer := buffer + [BufferEntry(pkt, now)];
      tx := SendPacket(pkt, source, broadcast, protocol);
    }

    /** SendPacket: whatever the protocol, the network layer is handed
        SIFT's own protocol number. */
    method SendPacket(packet: Packet, source: Ipv4Address, nextHop: Ipv4Address, protocol: U8)
      returns (tx: Option<Transmission>)
      ensures tx == Some(Transmission(packet, source, nextHop, ProtocolNumber))
    {
      tx := Some(Transmission(packet, source, nextHop, ProtocolNumber));
    }

    /** ScheduleTimer: cancel and erase the first timer for the packet's
        key, erase every expired timer, then start a timer for the packet. */
    method ScheduleTimer(packet: Packet, delay: real, source: Ipv4Address, protocol: U8)
      requires Valid()
      modifies this`timers
      ensures Valid()
      ensures timers == Resweep(old(timers), KeyOf(packet))
                        + [PendingForward(packet, delay, source, protocol, Running)]
    {
      var k := KeyOf(packet);
      var ts := timers;
      var kept: seq<PendingForward> := [];
      var matchFound := false;
      var i := 0;
      assert ts[0..] == ts;
      while i < |ts|
        invariant 0 <= i <= |ts|
        invariant Resweep(ts, k) == kept + Unswept(ts, i, k, matchFound)
      {
        UnsweptStep(ts, i, k, matchFound);
        if TimerKey(ts[i]) == k && !matchFound {
          matchFound := true;
        } else if ts[i].state == Running {
          AppendAssociates(kept, [ts[i]], Unswept(ts, i + 1, k, matchFound));
          kept := kept + [ts[i]];
        }
        i := i + 1;
      }
      assert ts[i..] == [];
      assert Unswept(ts, i, k, matchFound) == [];
      assert kept + [] == kept;
      var t := PendingForward(packet, delay, source, protocol, Running);
      ScheduleLeavesOneTimer(ts, t);
      timers := kept + [t];
    }

    /** CancelTimer: cancel and erase the first timer whose packet has the
        key of `p`. */
    method CancelTimer(p: Packet)
      requires Valid()
      modifies this`timers
      ensures Valid()
      ensures timers == RemoveFirst(old(timers), KeyOf(p))
    {
      var k := KeyOf(p);
      var i := 0;
      while i < |timers|
        invariant 0 <= i <= |timers|
        invariant timers == old(timers)
        invariant forall j :: 0 <= j < i ==> TimerKey(timers[j]) != k
      {
        if TimerKey(timers[i]) == k {
          assert FindKey(timers, k) == Some(i) by {
            var f := FindKey(timers, k);
            assert HasKey(timers, k);
          }
          RemoveFirstSplits(timers, k);
          RemoveFirstClears(timers, k);
          timers := timers[..i] + timers[i + 1..];
          return;
        }
        i := i + 1;
      }
      assert !HasKey(timers, k);
      RemoveFirstClears(timers, k);
    }

    /** The timer for key `k` fires: its state becomes expired and
        ForwardPacket sends the packet to the broadcast address. A key
        without a running timer fires nothing. */
    method TimerFires(k: PacketKey) returns (tx: Option<Transmission>)
      requires Valid()
      modifies this`timers
      ensures Valid()
      ensures match FindKey(old(timers), k)
        case None => tx.None? && timers == old(timers)
        case Some(i) =>
          if old(timers)[i].state == Running then
            && timers == old(timers)[i := old(timers)[i].(state := Expired)]
            && tx == Some(Transmission(old(timers)[i].packet, old(timers)[i].source,
                                       broadcast, ProtocolNumber))
          else tx.None? && timers == old(timers)
    {
      var f := FindKey(timers, k);
      if f.None? {
        return None;
      }
      var i := f.value;
      var t := timers[i];
      if t.state != Running {
        return None;
      }
      ghost var before := timers;
      timers := timers[i := t.(state := Expired)];
      assert forall j :: 0 <= j < |timers| ==> TimerKey(timers[j]) == TimerKey(before[j]);
      tx := ForwardPacket(t.packet, t.source, t.protocol);
    }

    /** ForwardPacket: send the packet on to the broadcast address. */
    method ForwardPacket(packet: Packet, source: Ipv4Address, protocol: U8)
      returns (tx: Option<Transmission>)
      ensures tx == Some(Transmission(packet, source, broadcast, ProtocolNumber))
    {
      tx := SendPacket(packet, source, broadcast, protocol);
    }

    /** The duplicate scan of Receive over the buffer. */
    method ScanBuffer(k: PacketKey, now: Time) returns (duplicate: Option<BufferEntry>)
      modifies this`buffer
      ensures buffer == Scan(old(buffer), now, k).kept
      ensures duplicate == Scan(old(buffer), now, k).duplicate
    {
      var buf := buffer;
      var kept: seq<BufferEntry> := [];
      var i := 0;
      while i < |buf|
        invariant 0 <= i <= |buf|
        invariant Scan(buf, now, k).kept == kept + Scan(buf[i..], now, k).kept
        invariant Scan(buf, now, k).duplicate == Scan(buf[i..], now, k).duplicate
      {
        ScanStep(buf, now, k, i);
        if !Aged(buf[i], now) {
          if KeyOf(buf[i].packet) == k {
            buffer := kept + buf[i..];
            return Some(buf[i]);
          }
          var rest := Scan(buf[i + 1..], now, k).kept;
          assert kept + ([buf[i]] + rest) == (kept + [buf[i]]) + rest;
          kept := kept + [buf[i]];
        }
        i := i + 1;
      }
      assert buf[i..] == [];
      buffer := kept;
      return None;
    }

    /** AddGeographicTuple: one upsert into the store, the trigger flag
        discarded. */
    method AddGeographicTuple(tuple: GeographicTuple)
      requires Valid()
      modifies state
      ensures Valid()
      ensures state.geographicSet == Upsert(old(state.geographicSet), tuple)
    {
      UpsertKeepsDistinct(state.geographicSet, tuple);
      var _ := state.InsertGeographicTuple(tuple, false);
    }

    /** The loop of Receive's forwarding branch that upserts one
        geographic sample per node into the store, each with a fresh
        needTriggerUpdate flag that is then ignored. */
    method RecordSamples(samples: seq<GeographicTuple>)
      requires DistinctAddresses(state.geographicSet)
      modifies state
      ensures state.geographicSet == UpsertAll(old(state.geographicSet), samples)
      ensures DistinctAddresses(state.geographicSet)
    {
      var n := 0;
      while n < |samples|
        invariant 0 <= n <= |samples|
        invariant state.geographicSet == UpsertAll(old(state.geographicSet), samples[..n])
        invariant DistinctAddresses(state.geographicSet)
      {
        assert samples[..n + 1][..n] == samples[..n];
        UpsertKeepsDistinct(state.geographicSet, samples[n]);
        var _ := state.InsertGeographicTuple(samples[n], false);
        n := n + 1;
      }
      assert samples[..n] == samples;
    }

    /** Receive for a packet `p` that arrived in the network header `ip`.
        The environment supplies this node's position, the clock, the two
        distances the delay is computed from, the geographic samples of the
        nodes, and the status each upper-layer protocol would return. */
    method Receive(p: Packet, ip: Ipv4Header, own: Position, now: Time,
                   dTrajectory: real, dLastSource: real,
                   samples: seq<GeographicTuple>, handlers: map<U8, RxStatus>)
      returns (outcome: ReceiveOutcome)
      requires Valid()
      requires Representable(own)
      requires dTrajectory >= 0.0 && dLastSource >= 0.0
      modifies this, state
      ensures Valid() && seqNo == old(seqNo)
      ensures var d := Decide(Received(p), own, old(buffer), now, mainAddress);
        && (d == DropUnspecified || d == DropOverlap || d == DropDuplicate ==>
              StatusOf(outcome) == Some(RxEndpointUnreach))
        && (d == Forward ==> StatusOf(outcome) == Some(RxOk))
        && (d == Deliver ==>
              StatusOf(outcome) == (if p.header.nextHeader in handlers
                                    then Some(handlers[p.header.nextHeader]) else None))
      ensures var d := Decide(Received(p), own, old(buffer), now, mainAddress);
        var scan := Scan(old(buffer), now, KeyOf(p));
        && (d == DropUnspecified || d == DropOverlap ==>
              && outcome == Dropped(d)
              && buffer == old(buffer) && timers == old(timers)
              && state.geographicSet == old(state.geographicSet))
        && (d == DropDuplicate ==>
              && outcome == Dropped(d)
              && buffer == scan.kept && timers == RemoveFirst(old(timers), KeyOf(p))
              && state.geographicSet == old(state.geographicSet))
        && (d == Deliver ==>
              && outcome == (if p.header.nextHeader in handlers
                             then Delivered(UpcallOf(p, ip, mainAddress), handlers[p.header.nextHeader])
                             else MissingHandler(p.header.nextHeader))
              && buffer == scan.kept + [BufferEntry(p, now)] && timers == old(timers)
              && state.geographicSet == old(state.geographicSet))
        && (d == Forward ==>
              && outcome == Scheduled(ForwardOf(p, own, dTrajectory, dLastSource))
              && buffer == scan.kept + [BufferEntry(p, now)]
              && timers == Resweep(old(timers), KeyOf(p)) + [ForwardOf(p, own, dTrajectory, dLastSource)]
              && state.geographicSet == UpsertAll(old(state.geographicSet), samples))
    {
      var h := Received(p);
      var k := KeyOfHeader(h);
      if h.destAddress == Unspecified {
        return Dropped(DropUnspecified);
      }
      if Trunc(own.x) == h.sourceX && Trunc(own.y) == h.sourceY {
        return Dropped(DropOverlap);
      }
      ScanFindsDuplicate(buffer, now, k);
      var duplicate := ScanBuffer(k, now);
      if duplicate.Some? {
        CancelTimer(duplicate.value.packet);
        return Dropped(DropDuplicate);
      }
      buffer := buffer + [BufferEntry(p, now)];
      if mainAddress == h.destAddress {
        if h.nextHeader in handlers {
          var upcall := Upcall(h.nextHeader, p.payload, DeliveryIpHeader(h, ip, mainAddress));
          return Delivered(upcall, handlers[h.nextHeader]);
        }
        return MissingHandler(h.nextHeader);
      }
      var forwarded := Packet(ForwardHeader(h, own), p.payload);
      RecordSamples(samples);
      var delay := ForwardDelay(dTrajectory, dLastSource);
      ScheduleTimer(forwarded, delay, h.sourceAddress, ProtocolNumber);
      return Scheduled(PendingForward(forwarded, delay, h.sourceAddress, ProtocolNumber, Running));
    }
  }
}
