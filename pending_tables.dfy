/** The two tables of a SIFT node: the duplicate-detection buffer of
    packets seen in the last three seconds, and the table of pending
    forwards, one timer per packet. Both are keyed, when they are searched,
    by the (source, destination, sequence number) triple of the packet's
    SIFT header. The source keeps them in maps ordered by packet pointer;
    here they are sequences in insertion order. */
module PendingTables {
  import opened Base
  import opened SiftHeaders

  /** A packet with its SIFT header on top of the transport payload. */
  datatype Packet = Packet(header: SiftHeader, payload: seq<Byte>)

  /** The bytes on the wire: the 48-byte header, then the payload. */
  function WireBytes(p: Packet, order: ByteOrder): (b: seq<Byte>)
    ensures |b| == HeaderSize + |p.payload|
  {
    Serialize(p.header, order) + p.payload
  }

  /** What identifies a packet network-wide. */
  datatype PacketKey = PacketKey(source: Ipv4Address, destination: Ipv4Address, seqNo: U16)

  function KeyOfHeader(h: SiftHeader): PacketKey
  {
    PacketKey(h.sourceAddress, h.destAddress, h.seqNo)
  }

  function KeyOf(p: Packet): PacketKey
  {
    KeyOfHeader(p.header)
  }

  /** Peeking the header of a packet's wire image into a fresh header reads
      back the key the packet was built with, so comparing the keys of two
      packets is comparing what PeekHeader returns for them. */
  lemma PeekHeaderKey(p: Packet, order: ByteOrder)
    ensures var d := Deserialize(FreshHeader(), WireBytes(p, order), order);
      d.Some? && d.value.consumed == HeaderSize && KeyOfHeader(d.value.header) == KeyOf(p)
  {
    SerializeRoundTrip(p.header, FreshHeader(), p.payload, order);
  }

  // ---------------------------------------------------------------------
  // The duplicate-detection buffer.

  /** A buffered packet and the time it was inserted. */
  datatype BufferEntry = BufferEntry(packet: Packet, received: Time)

  const DedupWindow: Time := Seconds(3)

  /** An entry at least three seconds old is swept out when the scan meets it. */
  predicate Aged(e: BufferEntry, now: Time)
  {
    now - e.received >= DedupWindow
  }

  /** The entries that are not aged, in order. */
  function LiveEntries(buf: seq<BufferEntry>, now: Time): (r: seq<BufferEntry>)
    ensures forall e :: e in r <==> e in buf && !Aged(e, now)
    ensures |r| <= |buf|
    ensures multiset(r) <= multiset(buf)
  {
    if buf == [] then []
    else
      assert buf == [buf[0]] + buf[1..];
      if Aged(buf[0], now) then LiveEntries(buf[1..], now)
      else [buf[0]] + LiveEntries(buf[1..], now)
  }

  /** The sweep works entry by entry: sweeping two stretches of the buffer
      and putting the results side by side is sweeping the whole, so the
      survivors keep their relative order. */
  lemma {:induction false} LiveEntriesAppend(a: seq<BufferEntry>, b: seq<BufferEntry>, now: Time)
    ensures LiveEntries(a + b, now) == LiveEntries(a, now) + LiveEntries(b, now)
  {
    if a != [] {
      assert (a + b)[0] == a[0];
      assert (a + b)[1..] == a[1..] + b;
      LiveEntriesAppend(a[1..], b, now);
    }
    else {
      assert a + b == b;
    }
  }

  predicate Matches(e: BufferEntry, now: Time, k: PacketKey)
  {
    !Aged(e, now) && KeyOf(e.packet) == k
  }

  /** The buffer after a duplicate scan, and the entry that stopped it. */
  datatype ScanResult = ScanResult(kept: seq<BufferEntry>, duplicate: Option<BufferEntry>)

  /** The index of the first live entry with key `k`. */
  function FirstMatch(buf: seq<BufferEntry>, now: Time, k: PacketKey): (r: Option<nat>)
    ensures r.None? ==> forall i :: 0 <= i < |buf| ==> !Matches(buf[i], now, k)
    ensures r.Some? ==>
      && r.value < |buf|
      && Matches(buf[r.value], now, k)
      && forall j :: 0 <= j < r.value ==> !Matches(buf[j], now, k)
  {
    if buf == [] then None
    else if Matches(buf[0], now, k) then Some(0)
    else
      match FirstMatch(buf[1..], now, k)
      case None =>
        assert forall i :: 1 <= i < |buf| ==> buf[i] == buf[1..][i - 1];
        None
      case Some(i) =>
        assert buf[i + 1] == buf[1..][i];
        assert forall j :: 1 <= j < i + 1 ==> buf[j] == buf[1..][j - 1];
        Some(i + 1)
  }

  /** The scan Receive runs over the buffer: aged entries are erased as it
      meets them, and it stops at the first live entry with key `k`, leaving
      the rest of the buffer unswept. */
  function Scan(buf: seq<BufferEntry>, now: Time, k: PacketKey): (r: ScanResult)
  {
    if buf == [] then ScanResult([], None)
    else if Aged(buf[0], now) then Scan(buf[1..], now, k)
    else if KeyOf(buf[0].packet) == k then ScanResult(buf, Some(buf[0]))
    else
      var rest := Scan(buf[1..], now, k);
      ScanResult([buf[0]] + rest.kept, rest.duplicate)
  }

  /** What the scan leaves: with no live entry for `k`, it is the expiry
      sweep of the whole buffer; otherwise the first live entry for `k` is
      the duplicate, the entries before it are swept and the rest are kept
      as they are. */
  lemma ScanMeaning(buf: seq<BufferEntry>, now: Time, k: PacketKey)
    ensures match FirstMatch(buf, now, k)
      case None => Scan(buf, now, k) == ScanResult(LiveEntries(buf, now), None)
      case Some(i) =>
        Scan(buf, now, k) == ScanResult(LiveEntries(buf[..i], now) + buf[i..], Some(buf[i]))
  {
    match FirstMatch(buf, now, k)
    case None => ScanWithoutMatch(buf, now, k);
    case Some(i) => ScanAtMatch(buf, now, k, i);
  }

  lemma {:induction false} ScanWithoutMatch(buf: seq<BufferEntry>, now: Time, k: PacketKey)
    requires FirstMatch(buf, now, k).None?
    ensures Scan(buf, now, k) == ScanResult(LiveEntries(buf, now), None)
  {
    if buf != [] {
      ScanWithoutMatch(buf[1..], now, k);
    }
  }

  lemma {:induction false} ScanAtMatch(buf: seq<BufferEntry>, now: Time, k: PacketKey, i: nat)
    requires FirstMatch(buf, now, k) == Some(i)
    ensures Scan(buf, now, k) == ScanResult(LiveEntries(buf[..i], now) + buf[i..], Some(buf[i]))
  {
    if i == 0 {
      assert buf[..0] == [] && buf[0..] == buf;
    } else {
      assert FirstMatch(buf[1..], now, k) == Some(i - 1);
      ScanAtMatch(buf[1..], now, k, i - 1);
      LiveEntriesPrefix(buf, now, i - 1);
      assert buf[i..] == buf[1..][i - 1..];
      if Aged(buf[0], now) {
        ScanSkipsAged(buf, now, k);
      } else {
        ScanKeepsFirst(buf, now, k);
        AppendAssociates([buf[0]], LiveEntries(buf[1..][..i - 1], now), buf[i..]);
      }
    }
  }

  lemma ScanSkipsAged(buf: seq<BufferEntry>, now: Time, k: PacketKey)
    requires buf != [] && Aged(buf[0], now)
    ensures Scan(buf, now, k) == Scan(buf[1..], now, k)
  {
  }

  lemma ScanKeepsFirst(buf: seq<BufferEntry>, now: Time, k: PacketKey)
    requires buf != [] && !Matches(buf[0], now, k) && !Aged(buf[0], now)
    ensures Scan(buf, now, k)
      == ScanResult([buf[0]] + Scan(buf[1..], now, k).kept, Scan(buf[1..], now, k).duplicate)
  {
  }

  lemma AppendAssociates<T>(a: seq<T>, b: seq<T>, c: seq<T>)
    ensures a + (b + c) == (a + b) + c
  {
  }

  /** Sweeping a prefix of length `i + 1` is sweeping its first entry, then
      the next `i`. */
  lemma LiveEntriesPrefix(buf: seq<BufferEntry>, now: Time, i: nat)
    requires i < |buf|
    ensures LiveEntries(buf[..i + 1], now)
      == (if Aged(buf[0], now) then [] else [buf[0]]) + LiveEntries(buf[1..][..i], now)
  {
    assert buf[..i + 1][0] == buf[0];
    assert buf[..i + 1][1..] == buf[1..][..i];
  }

  /** The scan erases aged entries only: every entry younger than three
      seconds is still in the buffer afterwards, and nothing is added. */
  lemma ScanErasesOnlyAged(buf: seq<BufferEntry>, now: Time, k: PacketKey)
    ensures forall e :: e in buf && !Aged(e, now) ==> e in Scan(buf, now, k).kept
    ensures forall e :: e in Scan(buf, now, k).kept ==> e in buf
  {
    ScanMeaning(buf, now, k);
    match FirstMatch(buf, now, k)
    case None =>
    case Some(i) =>
      assert buf == buf[..i] + buf[i..];
      forall e | e in Scan(buf, now, k).kept
        ensures e in buf
      {
        if e in LiveEntries(buf[..i], now) {
          assert e in buf[..i];
        }
      }
  }

  /** A duplicate is reported exactly when a live entry has key `k`, and the
      reported entry is such an entry. */
  lemma ScanFindsDuplicate(buf: seq<BufferEntry>, now: Time, k: PacketKey)
    ensures Scan(buf, now, k).duplicate.Some? <==>
      exists i :: 0 <= i < |buf| && Matches(buf[i], now, k)
    ensures Scan(buf, now, k).duplicate.Some? ==>
      Scan(buf, now, k).duplicate.value in buf
      && Matches(Scan(buf, now, k).duplicate.value, now, k)
  {
    ScanMeaning(buf, now, k);
  }

  /** One step of the scan, as the loop in Receive takes it. */
  lemma ScanStep(buf: seq<BufferEntry>, now: Time, k: PacketKey, i: nat)
    requires i < |buf|
    ensures Aged(buf[i], now) ==> Scan(buf[i..], now, k) == Scan(buf[i + 1..], now, k)
    ensures !Aged(buf[i], now) && KeyOf(buf[i].packet) == k ==>
      Scan(buf[i..], now, k) == ScanResult(buf[i..], Some(buf[i]))
    ensures !Aged(buf[i], now) && KeyOf(buf[i].packet) != k ==>
      var rest := Scan(buf[i + 1..], now, k);
      Scan(buf[i..], now, k) == ScanResult([buf[i]] + rest.kept, rest.duplicate)
  {
    assert buf[i..][0] == buf[i];
    assert buf[i..][1..] == buf[i + 1..];
  }

  /** A scan that finds no duplicate is exactly the expiry sweep: the
      buffer afterwards holds the entries younger than three seconds. */
  lemma {:induction false} ScanWithoutDuplicateSweeps(buf: seq<BufferEntry>, now: Time, k: PacketKey)
    requires forall e :: e in buf ==> KeyOf(e.packet) != k
    ensures Scan(buf, now, k) == ScanResult(LiveEntries(buf, now), None)
  {
    ScanMeaning(buf, now, k);
  }

  /** Once a packet is in the buffer, the same key is reported as a duplicate
      by every scan within three seconds of its insertion. */
  lemma InsertedIsDuplicateWithinWindow(buf: seq<BufferEntry>, p: Packet, at: Time, now: Time)
    requires at <= now < at + DedupWindow
    ensures Scan(buf + [BufferEntry(p, at)], now, KeyOf(p)).duplicate.Some?
  {
    var b := buf + [BufferEntry(p, at)];
    assert Matches(b[|buf|], now, KeyOf(p));
    ScanFindsDuplicate(b, now, KeyOf(p));
  }

  /** ...and is no longer reported once three seconds have passed, unless
      another live copy is buffered. */
  lemma AgedIsNotDuplicate(buf: seq<BufferEntry>, p: Packet, at: Time, now: Time)
    requires now >= at + DedupWindow
    requires forall e :: e in buf ==> KeyOf(e.packet) != KeyOf(p)
    ensures Scan(buf + [BufferEntry(p, at)], now, KeyOf(p)).duplicate.None?
  {
    var b := buf + [BufferEntry(p, at)];
    forall i | 0 <= i < |b|
      ensures !Matches(b[i], now, KeyOf(p))
    {
      if i < |buf| {
        assert b[i] in buf;
      }
    }
    ScanFindsDuplicate(b, now, KeyOf(p));
  }

  // ---------------------------------------------------------------------
  // The table of pending forwards.

  /** ns-3 timer states that occur here: scheduled, or fired or cancelled. */
  datatype TimerState = Running | Expired

  /** A forward waiting for its timer, with the arguments the timer passes
      to ForwardPacket. */
  datatype PendingForward = PendingForward(
    packet: Packet,
    delay: real,
    source: Ipv4Address,
    protocol: U8,
    state: TimerState)

  function TimerKey(t: PendingForward): PacketKey
  {
    KeyOf(t.packet)
  }

  /** At most one pending forward per key. */
  ghost predicate UniqueKeys(ts: seq<PendingForward>)
  {
    forall i, j :: 0 <= i < j < |ts| ==> TimerKey(ts[i]) != TimerKey(ts[j])
  }

  predicate HasKey(ts: seq<PendingForward>, k: PacketKey)
  {
    exists i :: 0 <= i < |ts| && TimerKey(ts[i]) == k
  }

  /** The entries whose timer is still running, in order. */
  function Survivors(ts: seq<PendingForward>): (r: seq<PendingForward>)
    ensures forall t :: t in r <==> t in ts && t.state == Running
    ensures |r| <= |ts|
    ensures multiset(r) <= multiset(ts)
  {
    if ts == [] then []
    else
      assert ts == [ts[0]] + ts[1..];
      if ts[0].state == Running then [ts[0]] + Survivors(ts[1..])
      else Survivors(ts[1..])
  }

  /** The sweep ScheduleTimer runs before adding a timer for key `k`: the
      first entry with key `k` is cancelled (so it expires and is erased),
      and every entry whose timer has expired is erased. */
  function Resweep(ts: seq<PendingForward>, k: PacketKey): (r: seq<PendingForward>)
    ensures forall t :: t in r ==> t in ts && t.state == Running
    ensures forall t :: t in ts && t.state == Running && TimerKey(t) != k ==> t in r
  {
    if ts == [] then []
    else if TimerKey(ts[0]) == k then Survivors(ts[1..])
    else (if ts[0].state == Running then [ts[0]] else []) + Resweep(ts[1..], k)
  }

  /** The first entry with key `k` removed, as CancelTimer does. */
  function RemoveFirst(ts: seq<PendingForward>, k: PacketKey): (r: seq<PendingForward>)
    ensures HasKey(ts, k) ==> |r| == |ts| - 1
    ensures !HasKey(ts, k) ==> r == ts
    ensures forall t :: t in r ==> t in ts
  {
    if ts == [] then []
    else if TimerKey(ts[0]) == k then ts[1..]
    else
      assert HasKey(ts[1..], k) ==> HasKey(ts, k) by {
        if HasKey(ts[1..], k) {
          var i :| 0 <= i < |ts[1..]| && TimerKey(ts[1..][i]) == k;
          assert TimerKey(ts[i + 1]) == k;
        }
      }
      assert HasKey(ts, k) ==> HasKey(ts[1..], k) by {
        if HasKey(ts, k) {
          var i :| 0 <= i < |ts| && TimerKey(ts[i]) == k;
          assert i > 0 && TimerKey(ts[1..][i - 1]) == k;
        }
      }
      [ts[0]] + RemoveFirst(ts[1..], k)
  }

  /** The index of the first entry with key `k`. */
  function FindKey(ts: seq<PendingForward>, k: PacketKey): (r: Option<nat>)
    ensures r.None? <==> !HasKey(ts, k)
    ensures r.Some? ==>
      && r.value < |ts|
      && TimerKey(ts[r.value]) == k
      && forall j :: 0 <= j < r.value ==> TimerKey(ts[j]) != k
  {
    if ts == [] then None
    else if TimerKey(ts[0]) == k then Some(0)
    else
      match FindKey(ts[1..], k)
      case None =>
        None
      case Some(i) =>
        assert TimerKey(ts[i + 1]) == k;
        Some(i + 1)
  }

  /** CancelTimer removes exactly the first entry with the key and keeps the
      others in order. */
  lemma {:induction false} RemoveFirstSplits(ts: seq<PendingForward>, k: PacketKey)
    requires HasKey(ts, k)
    ensures var i := FindKey(ts, k).value;
      RemoveFirst(ts, k) == ts[..i] + ts[i + 1..]
  {
    if TimerKey(ts[0]) != k {
      assert HasKey(ts[1..], k) by {
        var i :| 0 <= i < |ts| && TimerKey(ts[i]) == k;
        assert TimerKey(ts[1..][i - 1]) == k;
      }
      RemoveFirstSplits(ts[1..], k);
      var j := FindKey(ts[1..], k).value;
      assert ts[..j + 1] == [ts[0]] + ts[1..][..j];
      assert ts[j + 2..] == ts[1..][j + 1..];
    }
  }

  /** Prepending an entry whose key no other entry has keeps keys unique. */
  lemma ConsUnique(t: PendingForward, ts: seq<PendingForward>)
    requires UniqueKeys(ts)
    requires forall u :: u in ts ==> TimerKey(u) != TimerKey(t)
    ensures UniqueKeys([t] + ts)
  {
    var r := [t] + ts;
    forall i, j | 0 <= i < j < |r|
      ensures TimerKey(r[i]) != TimerKey(r[j])
    {
      if i == 0 {
        assert r[j] in ts;
      } else {
        assert r[i] == ts[i - 1] && r[j] == ts[j - 1];
      }
    }
  }

  lemma TailUnique(ts: seq<PendingForward>)
    requires UniqueKeys(ts) && ts != []
    ensures UniqueKeys(ts[1..])
    ensures forall u :: u in ts[1..] ==> TimerKey(u) != TimerKey(ts[0])
  {
    forall u | u in ts[1..]
      ensures TimerKey(u) != TimerKey(ts[0])
    {
      var j :| 0 <= j < |ts[1..]| && ts[1..][j] == u;
      assert ts[j + 1] == u;
    }
  }

  lemma {:induction false} SurvivorsUnique(ts: seq<PendingForward>)
    requires UniqueKeys(ts)
    ensures UniqueKeys(Survivors(ts))
  {
    if ts != [] {
      TailUnique(ts);
      SurvivorsUnique(ts[1..]);
      if ts[0].state == Running {
        ConsUnique(ts[0], Survivors(ts[1..]));
      }
    }
  }

  /** With unique keys, the sweep leaves no entry with key `k` and keeps the
      keys unique, so adding the new timer afterwards keeps them unique. */
  lemma {:induction false} ResweepUnique(ts: seq<PendingForward>, k: PacketKey)
    requires UniqueKeys(ts)
    ensures UniqueKeys(Resweep(ts, k))
    ensures forall t :: t in Resweep(ts, k) ==> TimerKey(t) != k
  {
    if ts != [] {
      TailUnique(ts);
      if TimerKey(ts[0]) == k {
        SurvivorsUnique(ts[1..]);
      } else {
        ResweepUnique(ts[1..], k);
        if ts[0].state == Running {
          ConsUnique(ts[0], Resweep(ts[1..], k));
        }
      }
    }
  }

  /** Appending a timer whose key the table does not hold keeps keys unique. */
  lemma SnocUnique(ts: seq<PendingForward>, t: PendingForward)
    requires UniqueKeys(ts)
    requires forall u :: u in ts ==> TimerKey(u) != TimerKey(t)
    ensures UniqueKeys(ts + [t])
  {
    var r := ts + [t];
    forall i, j | 0 <= i < j < |r|
      ensures TimerKey(r[i]) != TimerKey(r[j])
    {
      if j == |ts| {
        assert r[i] in ts;
      } else {
        assert r[i] == ts[i] && r[j] == ts[j];
      }
    }
  }

  /** With unique keys, CancelTimer leaves no entry with the key: the timer
      of a packet whose duplicate was heard can no longer fire. */
  lemma {:induction false} RemoveFirstClears(ts: seq<PendingForward>, k: PacketKey)
    requires UniqueKeys(ts)
    ensures UniqueKeys(RemoveFirst(ts, k))
    ensures !HasKey(RemoveFirst(ts, k), k)
  {
    if ts != [] {
      TailUnique(ts);
      if TimerKey(ts[0]) != k {
        RemoveFirstClears(ts[1..], k);
        ConsUnique(ts[0], RemoveFirst(ts[1..], k));
      }
    }
  }
}
