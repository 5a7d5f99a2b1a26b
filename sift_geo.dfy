/** The geographic state store: one record per node address holding the last
    known position and velocity, its timestamps and two flags. Records are
    never removed; "erasing" one overwrites it with sentinel values. */
module Geo {
  import opened Base

  datatype GeographicTuple = GeographicTuple(
    nodeAddr: Ipv4Address,
    nodeReceivedFrom: Ipv4Address,
    xcoord: U32,
    ycoord: U32,
    zcoord: U32,
    xvelocity: I16,
    yvelocity: I16,
    zvelocity: I16,
    recordedTime: Time,
    dataRecordedTime: Time,
    startTime: Time,
    expireTime: Time,
    isBeingUpdated: bool,
    isChanged: bool)

  /** The sentinels an erased record holds. */
  const ErasedCoordinate: U32 := 9999
  const ErasedVelocity: I16 := 256

  /** Tuples compare equal by address alone, so each address should own at
      most one record. */
  ghost predicate DistinctAddresses(s: seq<GeographicTuple>)
  {
    forall i, j :: 0 <= i < j < |s| ==> s[i].nodeAddr != s[j].nodeAddr
  }

  predicate HasAddress(s: seq<GeographicTuple>, addr: Ipv4Address)
  {
    exists i :: 0 <= i < |s| && s[i].nodeAddr == addr
  }

  /** Index of the first record for `addr`, the one every lookup acts on. */
  function FirstIndex(s: seq<GeographicTuple>, addr: Ipv4Address): (r: Option<nat>)
    ensures r.Some? ==>
      && r.value < |s| && s[r.value].nodeAddr == addr
      && forall j :: 0 <= j < r.value ==> s[j].nodeAddr != addr
    ensures r.None? <==> !HasAddress(s, addr)
  {
    if |s| == 0 then None
    else if s[0].nodeAddr == addr then Some(0)
    else match FirstIndex(s[1..], addr)
      case None => None
      case Some(i) => Some(i + 1)
  }

  /** A record for `addr` with none before it is the first one. */
  lemma FirstIndexAt(s: seq<GeographicTuple>, addr: Ipv4Address, i: nat)
    requires i < |s| && s[i].nodeAddr == addr
    requires forall j :: 0 <= j < i ==> s[j].nodeAddr != addr
    ensures FirstIndex(s, addr) == Some(i)
  {
  }

  predicate VelocityDiffers(stored: GeographicTuple, t: GeographicTuple)
  {
    t.xvelocity != stored.xvelocity || t.yvelocity != stored.yvelocity
    || t.zvelocity != stored.zvelocity
  }

  /** An incoming sample merged into the record it updates: position,
      velocity, three of the timestamps and the sender are taken from the
      sample; the start time and the address are kept; isBeingUpdated is
      cleared; isChanged is raised when the velocity moved and kept otherwise. */
  function Merge(stored: GeographicTuple, t: GeographicTuple): (r: GeographicTuple)
    ensures r.nodeAddr == stored.nodeAddr && r.startTime == stored.startTime
    ensures r.xcoord == t.xcoord && r.ycoord == t.ycoord && r.zcoord == t.zcoord
    ensures r.xvelocity == t.xvelocity && r.yvelocity == t.yvelocity && r.zvelocity == t.zvelocity
    ensures r.recordedTime == t.recordedTime && r.dataRecordedTime == t.dataRecordedTime
    ensures r.expireTime == t.expireTime && r.nodeReceivedFrom == t.nodeReceivedFrom
    ensures !r.isBeingUpdated
    ensures r.isChanged == (stored.isChanged || VelocityDiffers(stored, t))
  {
    stored.(xcoord := t.xcoord, ycoord := t.ycoord, zcoord := t.zcoord,
            xvelocity := t.xvelocity, yvelocity := t.yvelocity, zvelocity := t.zvelocity,
            recordedTime := t.recordedTime, dataRecordedTime := t.dataRecordedTime,
            expireTime := t.expireTime, nodeReceivedFrom := t.nodeReceivedFrom,
            isBeingUpdated := false,
            isChanged := stored.isChanged || VelocityDiffers(stored, t))
  }

  /** InsertGeographicTuple on the whole set: merge into the first record for
      the address, or append the sample flagged as changed. */
  function Upsert(s: seq<GeographicTuple>, t: GeographicTuple): (r: seq<GeographicTuple>)
    ensures HasAddress(s, t.nodeAddr) ==> |r| == |s|
    ensures !HasAddress(s, t.nodeAddr) ==> r == s + [t.(isChanged := true)]
  {
    match FirstIndex(s, t.nodeAddr)
    case Some(i) => s[i := Merge(s[i], t)]
    case None => s + [t.(isChanged := true)]
  }

  /** Whether InsertGeographicTuple raises needTriggerUpdate: only when it
      updates an existing record whose velocity moved; never on insertion. */
  predicate TriggersUpdate(s: seq<GeographicTuple>, t: GeographicTuple)
  {
    match FirstIndex(s, t.nodeAddr)
    case Some(i) => VelocityDiffers(s[i], t)
    case None => false
  }

  /** An upsert of a known address changes the first record for it, as Merge
      says, and no other record. */
  lemma UpsertExisting(s: seq<GeographicTuple>, t: GeographicTuple, i: nat)
    requires FirstIndex(s, t.nodeAddr) == Some(i)
    ensures |Upsert(s, t)| == |s|
    ensures Upsert(s, t)[i] == Merge(s[i], t)
    ensures Upsert(s, t)[i].isChanged <==> s[i].isChanged || TriggersUpdate(s, t)
    ensures forall j :: 0 <= j < |s| && j != i ==> Upsert(s, t)[j] == s[j]
  {
  }

  /** Upserts keep addresses pairwise distinct. */
  lemma UpsertKeepsDistinct(s: seq<GeographicTuple>, t: GeographicTuple)
    requires DistinctAddresses(s)
    ensures DistinctAddresses(Upsert(s, t))
  {
    var r := Upsert(s, t);
    match FirstIndex(s, t.nodeAddr)
    case Some(i) =>
      forall a, b | 0 <= a < b < |r| ensures r[a].nodeAddr != r[b].nodeAddr {
        assert r[a].nodeAddr == s[a].nodeAddr && r[b].nodeAddr == s[b].nodeAddr;
      }
    case None =>
      forall a, b | 0 <= a < b < |r| ensures r[a].nodeAddr != r[b].nodeAddr {
        if b == |s| {
          assert r[b].nodeAddr == t.nodeAddr && r[a] == s[a];
        }
      }
  }

  /** After an upsert, a lookup of the address finds the sample's position
      and velocity, with the start time of the record it replaced (if any). */
  lemma FindAfterUpsert(s: seq<GeographicTuple>, t: GeographicTuple)
    ensures FirstIndex(Upsert(s, t), t.nodeAddr).Some?
    ensures var r := Upsert(s, t);
      var k := FirstIndex(r, t.nodeAddr).value;
      && r[k].xcoord == t.xcoord && r[k].ycoord == t.ycoord && r[k].zcoord == t.zcoord
      && r[k].xvelocity == t.xvelocity && r[k].yvelocity == t.yvelocity
      && r[k].zvelocity == t.zvelocity
      && r[k].startTime == (if HasAddress(s, t.nodeAddr)
                            then s[FirstIndex(s, t.nodeAddr).value].startTime
                            else t.startTime)
  {
    var r := Upsert(s, t);
    match FirstIndex(s, t.nodeAddr)
    case Some(i) =>
      FirstIndexAt(r, t.nodeAddr, i);
    case None =>
      FirstIndexAt(r, t.nodeAddr, |s|);
  }

  /** A second identical upsert changes nothing, unless the first one
      appended a sample that was itself flagged as being updated (the merge
      clears that flag). */
  lemma UpsertIdempotent(s: seq<GeographicTuple>, t: GeographicTuple)
    requires HasAddress(s, t.nodeAddr) || !t.isBeingUpdated
    ensures Upsert(Upsert(s, t), t) == Upsert(s, t)
  {
    var r := Upsert(s, t);
    FindAfterUpsert(s, t);
    var k := FirstIndex(r, t.nodeAddr).value;
    match FirstIndex(s, t.nodeAddr)
    case Some(i) =>
      FirstIndexAt(r, t.nodeAddr, i);
      assert Merge(r[k], t) == r[k];
    case None =>
      FirstIndexAt(r, t.nodeAddr, |s|);
      assert Merge(r[k], t) == r[k];
  }

  /** The record an erase leaves: sentinel position and velocity, recorded
      time `now`, the other times zero, both flags down and the sender a
      default-constructed address; only the address survives. */
  function Invalidated(stored: GeographicTuple, now: Time): (r: GeographicTuple)
    ensures r.nodeAddr == stored.nodeAddr
  {
    GeographicTuple(stored.nodeAddr, DefaultConstructed,
                    ErasedCoordinate, ErasedCoordinate, ErasedCoordinate,
                    ErasedVelocity, ErasedVelocity, ErasedVelocity,
                    now, 0, 0, 0, false, false)
  }

  /** EraseGeographicTuple on the whole set: invalidate the first record for
      the address, never remove it; no record, no change. */
  function Erased(s: seq<GeographicTuple>, addr: Ipv4Address, now: Time): (r: seq<GeographicTuple>)
    ensures |r| == |s|
    ensures forall j :: 0 <= j < |s| ==> r[j].nodeAddr == s[j].nodeAddr
    ensures !HasAddress(s, addr) ==> r == s
  {
    match FirstIndex(s, addr)
    case Some(i) => s[i := Invalidated(s[i], now)]
    case None => s
  }

  /** After an erase the address is still known, its record holds the
      sentinels and no flag, and no other record changed. */
  lemma EraseKeepsSlot(s: seq<GeographicTuple>, addr: Ipv4Address, now: Time)
    requires HasAddress(s, addr)
    ensures var r := Erased(s, addr, now);
      var i := FirstIndex(s, addr).value;
      && FirstIndex(r, addr) == Some(i)
      && r[i].xcoord == r[i].ycoord == r[i].zcoord == ErasedCoordinate
      && r[i].xvelocity == r[i].yvelocity == r[i].zvelocity == ErasedVelocity
      && r[i].recordedTime == now
      && r[i].startTime == r[i].expireTime == r[i].dataRecordedTime == 0
      && !r[i].isChanged && !r[i].isBeingUpdated && r[i].nodeReceivedFrom == DefaultConstructed
      && (forall j :: 0 <= j < |s| && j != i ==> r[j] == s[j])
  {
    var r := Erased(s, addr, now);
    FirstIndexAt(r, addr, FirstIndex(s, addr).value);
  }

  /** UpdateAllTupleIsChanged on the whole set. */
  function AllChanged(s: seq<GeographicTuple>, b: bool): (r: seq<GeographicTuple>)
    ensures |r| == |s|
    ensures forall j :: 0 <= j < |s| ==> r[j] == s[j].(isChanged := b)
  {
    seq(|s|, j requires 0 <= j < |s| => s[j].(isChanged := b))
  }

  /** UpdateTupleIsChanged on the whole set: every record for the address. */
  function TupleChanged(s: seq<GeographicTuple>, addr: Ipv4Address, b: bool): (r: seq<GeographicTuple>)
    ensures |r| == |s|
    ensures forall j :: 0 <= j < |s| ==>
      r[j] == if s[j].nodeAddr == addr then s[j].(isChanged := b) else s[j]
  {
    seq(|s|, j requires 0 <= j < |s| =>
      if s[j].nodeAddr == addr then s[j].(isChanged := b) else s[j])
  }

  /** SetIsBeingUpdated on the whole set: every record for the address. */
  function BeingUpdatedSet(s: seq<GeographicTuple>, addr: Ipv4Address, b: bool): (r: seq<GeographicTuple>)
    ensures |r| == |s|
    ensures forall j :: 0 <= j < |s| ==>
      r[j] == if s[j].nodeAddr == addr then s[j].(isBeingUpdated := b) else s[j]
  {
    seq(|s|, j requires 0 <= j < |s| =>
      if s[j].nodeAddr == addr then s[j].(isBeingUpdated := b) else s[j])
  }

  /** Raising isChanged on an address that is absent from `s`, right after
      appending its sample, touches the appended sample only. */
  lemma ChangedAfterAppend(s: seq<GeographicTuple>, t: GeographicTuple)
    requires !HasAddress(s, t.nodeAddr)
    ensures TupleChanged(s + [t], t.nodeAddr, true) == s + [t.(isChanged := true)]
  {
  }

  /** The flag queries never reorder, add or drop records. */
  lemma FlagUpdatesKeepAddresses(s: seq<GeographicTuple>, addr: Ipv4Address, b: bool)
    ensures forall j :: 0 <= j < |s| ==>
      && AllChanged(s, b)[j].nodeAddr == s[j].nodeAddr
      && TupleChanged(s, addr, b)[j].nodeAddr == s[j].nodeAddr
      && BeingUpdatedSet(s, addr, b)[j].nodeAddr == s[j].nodeAddr
    ensures FirstIndex(BeingUpdatedSet(s, addr, b), addr) == FirstIndex(s, addr)
  {
    var r := BeingUpdatedSet(s, addr, b);
    assert forall j :: 0 <= j < |s| ==> r[j].nodeAddr == s[j].nodeAddr;
    match FirstIndex(s, addr)
    case None =>
      assert !HasAddress(r, addr);
    case Some(i) =>
      FirstIndexAt(r, addr, i);
  }

  /** GetIsBeingUpdated on the whole set. */
  function BeingUpdated(s: seq<GeographicTuple>, addr: Ipv4Address): (b: bool)
    ensures b ==> HasAddress(s, addr)
  {
    match FirstIndex(s, addr)
    case Some(i) => s[i].isBeingUpdated
    case None => false
  }

  /** SetIsBeingUpdated then GetIsBeingUpdated reads the flag back for a
      known address, and false for an unknown one. */
  lemma SetThenGetBeingUpdated(s: seq<GeographicTuple>, addr: Ipv4Address, b: bool)
    ensures BeingUpdated(BeingUpdatedSet(s, addr, b), addr) == (b && HasAddress(s, addr))
  {
    FlagUpdatesKeepAddresses(s, addr, b);
  }

  /** The samples upserted one after another, in order. */
  function UpsertAll(s: seq<GeographicTuple>, samples: seq<GeographicTuple>): (r: seq<GeographicTuple>)
  {
    if samples == [] then s
    else Upsert(UpsertAll(s, samples[..|samples| - 1]), samples[|samples| - 1])
  }

  /** A batch of upserts keeps addresses distinct, never drops a record and
      leaves a record for every sampled address. */
  lemma {:induction false} UpsertAllKeepsDistinct(s: seq<GeographicTuple>, samples: seq<GeographicTuple>)
    requires DistinctAddresses(s)
    ensures DistinctAddresses(UpsertAll(s, samples))
    ensures |UpsertAll(s, samples)| >= |s|
    ensures forall t :: t in samples ==> HasAddress(UpsertAll(s, samples), t.nodeAddr)
  {
    if samples != [] {
      var init := samples[..|samples| - 1];
      var last := samples[|samples| - 1];
      UpsertAllKeepsDistinct(s, init);
      var before := UpsertAll(s, init);
      UpsertKeepsDistinct(before, last);
      FindAfterUpsert(before, last);
      forall t | t in samples
        ensures HasAddress(UpsertAll(s, samples), t.nodeAddr)
      {
        if t != last {
          assert t in init by {
            var j :| 0 <= j < |samples| && samples[j] == t;
            assert j < |samples| - 1 && init[j] == t;
          }
          var i := FirstIndex(before, t.nodeAddr).value;
          if HasAddress(before, last.nodeAddr) {
            UpsertExisting(before, last, FirstIndex(before, last.nodeAddr).value);
          }
          assert Upsert(before, last)[i].nodeAddr == t.nodeAddr;
        }
      }
    }
  }

  /** The store itself: the vector m_geographicSet, updated in place. */
  class SiftGeo {
    var geographicSet: seq<GeographicTuple>

    constructor ()
      ensures geographicSet == []
    {
      geographicSet := [];
    }

    /** FindGeographicTuple: the index of the first record with the address
        (the pointer the source returns), or None (NULL). */
    method FindGeographicTuple(mainAddr: Ipv4Address) returns (r: Option<nat>)
      ensures r.Some? ==>
        && r.value < |geographicSet| && geographicSet[r.value].nodeAddr == mainAddr
        && forall j :: 0 <= j < r.value ==> geographicSet[j].nodeAddr != mainAddr
      ensures r.None? ==> forall j :: 0 <= j < |geographicSet| ==> geographicSet[j].nodeAddr != mainAddr
    {
      var i := 0;
      while i < |geographicSet|
        invariant 0 <= i <= |geographicSet|
        invariant forall j :: 0 <= j < i ==> geographicSet[j].nodeAddr != mainAddr
      {
        if geographicSet[i].nodeAddr == mainAddr {
          return Some(i);
        }
        i := i + 1;
      }
      return None;
    }

    /** InsertGeographicTuple. `needTriggerUpdate` is the caller's flag passed
        by reference: it is raised, never lowered. */
    method InsertGeographicTuple(tuple: GeographicTuple, needTriggerUpdate: bool)
      returns (needTriggerUpdateOut: bool)
      modifies this
      ensures geographicSet == Upsert(old(geographicSet), tuple)
      ensures needTriggerUpdateOut == (needTriggerUpdate || TriggersUpdate(old(geographicSet), tuple))
    {
      needTriggerUpdateOut := needTriggerUpdate;
      var i := 0;
      while i < |geographicSet|
        invariant 0 <= i <= |geographicSet|
        invariant geographicSet == old(geographicSet)
        invariant forall j :: 0 <= j < i ==> geographicSet[j].nodeAddr != tuple.nodeAddr
      {
        if geographicSet[i].nodeAddr == tuple.nodeAddr {
          var stored := geographicSet[i];
          assert FirstIndex(geographicSet, tuple.nodeAddr) == Some(i);
          if VelocityDiffers(stored, tuple) {
            stored := stored.(isChanged := true);
            needTriggerUpdateOut := true;
          }
          stored := stored.(xcoord := tuple.xcoord, ycoord := tuple.ycoord, zcoord := tuple.zcoord,
                            xvelocity := tuple.xvelocity, yvelocity := tuple.yvelocity,
                            zvelocity := tuple.zvelocity,
                            recordedTime := tuple.recordedTime,
                            dataRecordedTime := tuple.dataRecordedTime,
                            expireTime := tuple.expireTime,
                            nodeReceivedFrom := tuple.nodeReceivedFrom,
                            isBeingUpdated := false);
          geographicSet := geographicSet[i := stored];
          return;
        }
        i := i + 1;
      }
      assert !HasAddress(geographicSet, tuple.nodeAddr);
      ChangedAfterAppend(geographicSet, tuple);
      geographicSet := geographicSet + [tuple];
      UpdateTupleIsChanged(tuple.nodeAddr, true);
    }

    /** EraseGeographicTuple: overwrite the first matching record with the
        sentinels; `now` is the simulator clock. */
    method EraseGeographicTuple(tuple: GeographicTuple, now: Time)
      modifies this
      ensures geographicSet == Erased(old(geographicSet), tuple.nodeAddr, now)
    {
      var i := 0;
      while i < |geographicSet|
        invariant 0 <= i <= |geographicSet|
        invariant geographicSet == old(geographicSet)
        invariant forall j :: 0 <= j < i ==> geographicSet[j].nodeAddr != tuple.nodeAddr
      {
        if geographicSet[i].nodeAddr == tuple.nodeAddr {
          assert FirstIndex(geographicSet, tuple.nodeAddr) == Some(i);
          geographicSet := geographicSet[i := Invalidated(geographicSet[i], now)];
          break;
        }
        i := i + 1;
      }
    }

    method UpdateAllTupleIsChanged(isChanged: bool)
      modifies this
      ensures geographicSet == AllChanged(old(geographicSet), isChanged)
    {
      var i := 0;
      while i < |geographicSet|
        invariant 0 <= i <= |geographicSet| == |old(geographicSet)|
        invariant forall j :: 0 <= j < i ==> geographicSet[j] == old(geographicSet)[j].(isChanged := isChanged)
        invariant forall j :: i <= j < |geographicSet| ==> geographicSet[j] == old(geographicSet)[j]
      {
        geographicSet := geographicSet[i := geographicSet[i].(isChanged := isChanged)];
        i := i + 1;
      }
    }

    method UpdateTupleIsChanged(nodeAddress: Ipv4Address, isChanged: bool)
      modifies this
      ensures geographicSet == TupleChanged(old(geographicSet), nodeAddress, isChanged)
    {
      var i := 0;
      while i < |geographicSet|
        invariant 0 <= i <= |geographicSet| == |old(geographicSet)|
        invariant forall j :: 0 <= j < i ==>
          geographicSet[j] == if old(geographicSet)[j].nodeAddr == nodeAddress
                              then old(geographicSet)[j].(isChanged := isChanged)
                              else old(geographicSet)[j]
        invariant forall j :: i <= j < |geographicSet| ==> geographicSet[j] == old(geographicSet)[j]
      {
        if geographicSet[i].nodeAddr == nodeAddress {
          geographicSet := geographicSet[i := geographicSet[i].(isChanged := isChanged)];
        }
        i := i + 1;
      }
    }

    method SetIsBeingUpdated(nodeAddress: Ipv4Address, isBeingUpdated: bool)
      modifies this
      ensures geographicSet == BeingUpdatedSet(old(geographicSet), nodeAddress, isBeingUpdated)
    {
      var i := 0;
      while i < |geographicSet|
        invariant 0 <= i <= |geographicSet| == |old(geographicSet)|
        invariant forall j :: 0 <= j < i ==>
          geographicSet[j] == if old(geographicSet)[j].nodeAddr == nodeAddress
                              then old(geographicSet)[j].(isBeingUpdated := isBeingUpdated)
                              else old(geographicSet)[j]
        invariant forall j :: i <= j < |geographicSet| ==> geographicSet[j] == old(geographicSet)[j]
      {
        if geographicSet[i].nodeAddr == nodeAddress {
          geographicSet := geographicSet[i := geographicSet[i].(isBeingUpdated := isBeingUpdated)];
        }
        i := i + 1;
      }
    }

    /** GetIsBeingUpdated: the first matching record's flag, false when the
        address is unknown. */
    method GetIsBeingUpdated(nodeAddress: Ipv4Address) returns (b: bool)
      ensures b == BeingUpdated(geographicSet, nodeAddress)
      ensures b ==> exists j :: 0 <= j < |geographicSet| && geographicSet[j].nodeAddr == nodeAddress
                               && geographicSet[j].isBeingUpdated
    {
      var i := 0;
      while i < |geographicSet|
        invariant 0 <= i <= |geographicSet|
        invariant forall j :: 0 <= j < i ==> geographicSet[j].nodeAddr != nodeAddress
      {
        if geographicSet[i].nodeAddr == nodeAddress {
          assert FirstIndex(geographicSet, nodeAddress) == Some(i);
          return geographicSet[i].isBeingUpdated;
        }
        i := i + 1;
      }
      return false;
    }
  }
}
