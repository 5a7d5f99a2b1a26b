# SIFT geographic forwarding, modelled in Dafny

SIFT is a geographic routing protocol for ns-3 that does not use tables. A
source wraps each packet in a 48-byte SIFT header. The header carries:

- the source's, the previous hop's and the destination's positions, as
  truncated integer coordinates;
- a 16-bit sequence number;
- a TTL byte.

The source broadcasts the packet. A neighbour that receives the packet does
one of these:

- drops it when it is a duplicate seen in the last three seconds, or when
  the neighbour sits where the source was;
- delivers it when the neighbour is the destination;
- otherwise starts a timer whose delay grows with the neighbour's distance
  from the source–destination line and shrinks with its distance from the
  previous hop.

The first neighbour whose timer fires rebroadcasts the packet. The others
hear that copy and cancel their own timer.

The project models three parts of the module:

- **`SiftHeaders`** (`sift_header.dfy`): the header as a value, its field
  accessors, the TTL update, the unserialised node-address list, and the
  codec. `Serialize` and `Deserialize` are parameterised on the byte order
  of the buffer's `WriteU16`/`WriteU32`. The two IPv4 addresses are always
  written in network order. Coordinates are 32-bit two's-complement values.
- **`Geo`** (`sift_geo.dfy`): the geographic store `SiftGeo`, a class whose
  tuple list is a sequence field. Each method is proved against a function
  on that sequence (`Upsert`, `Erased`, `AllChanged`, …).
- **`Routing`** (`sift_routing.dfy`): the forwarding engine `SiftRouting`. It
  is a class with three fields: the sequence counter, the receive buffer
  used for duplicate detection, and the table of pending forwarding timers.
  It also holds its `SiftGeo` store.

Three supporting modules hold the pure parts:

- **`Base`**: fixed-width integers, addresses, time in nanoseconds, and
  truncation toward zero.
- **`Forwarding`**: the sequence counter, the origin header, the per-hop
  header rewrite and the delay formula.
- **`PendingTables`**: the buffer scan and the timer-table operations, keyed
  on (source address, destination address, sequence number) as the source
  compares packets.

`Receive` is proved against `Decide`, which says which branch a packet
takes. Its postcondition gives the new buffer, timer table and store for
each branch. `Send`, `ScheduleTimer`, `CancelTimer` and the timer's expiry
(`TimerFires`) state their whole new state in the same way.

## Model

| member | source | states |
|---|---|---|
| SiftHeaders.Get | model/sift-header.cc:97-235 | Every getter returns a value within its field's width: unsigned bytes, `uint16`, `uint32` and `int32` ranges. `SourceId` and `DestId` have no getter in the source. Only `Deserialize` writes them. They are fields here so that `FieldsDetermineHeader` covers every serialised field. |
| SiftHeaders.Set | model/sift-header.cc:97-235 | A setter changes exactly its own field: the getter returns the new value, and every other field, the pad and the address list are unchanged. The source has setters for every field except `SourceId` and `DestId`. |
| SiftHeaders.SetGetIdentity | model/sift-header.cc:97-235 | Setting a field to the value it already has leaves the header unchanged. |
| SiftHeaders.FieldsDetermineHeader | model/sift-header.h:240-300 | Two headers that agree on every field, on the pad and on the address list are equal. |
| SiftHeaders.UpdateHeaderTtl | model/sift-header.cc:237-241 | The TTL drops by one and wraps from 0 to 255 as an unsigned byte. Nothing else changes. |
| SiftHeaders.UpdateHeaderTtlTimesWraps | model/sift-header.cc:237-241 | `n` TTL updates give TTL `(ttl - n) mod 256` and leave every other part of the header as it was. |
| SiftHeaders.SetNodesAddress | model/sift-header.cc:249-253 | The address list becomes the given list and the option length becomes 10. Every other field is kept. |
| SiftHeaders.SetNumberAddress | model/sift-header.cc:243-247 | The list is replaced by `n` unspecified (0.0.0.0) addresses. No serialised field changes, the pad included. |
| SiftHeaders.GetNodeListSize | model/sift-header.cc:270-273 | Returns the list's length, truncated to a byte: it is congruent to the length modulo 256, and equal to it below 256. |
| SiftHeaders.SetNodeAddress | model/sift-header.cc:260-263 | Writes one slot when the index is inside the list. An index outside the list is an error (`None`), where `std::vector::at` would throw. |
| SiftHeaders.GetNodeAddress | model/sift-header.cc:265-268 | Reads one slot when the index is inside the list. An out-of-range index gives `None`. |
| SiftHeaders.SetThenGetNodeAddress | model/sift-header.cc:260-268 | After writing slot `i`, reading slot `i` gives the written address, and every other slot reads as before. |
| SiftHeaders.U16RoundTrip | model/sift-header.cc:320-368 | Reading back a 16-bit value written in either byte order gives the value. |
| SiftHeaders.U32RoundTrip | model/sift-header.cc:320-368 | Reading back a 32-bit value written in either byte order gives the value. |
| SiftHeaders.U16BytesOf | model/sift-header.cc:320-368 | Any two bytes, read as a 16-bit value and written again, are reproduced. |
| SiftHeaders.U32BytesOf | model/sift-header.cc:320-368 | Any four bytes, read as a 32-bit value and written again, are reproduced. |
| SiftHeaders.I32BitsRoundTrip | model/sift-header.cc:320-368 | A signed coordinate written as its `uint32` bit pattern and read back as `int32` is unchanged. |
| SiftHeaders.I32BitsOf | model/sift-header.cc:320-368 | A `uint32` bit pattern read as `int32` and written back is unchanged. |
| SiftHeaders.Serialize | model/sift-header.cc:320-342 | The image is always 48 bytes. |
| SiftHeaders.GetSerializedSize | model/sift-header.cc:33 | The advertised size equals the length of the image, whatever the address list holds. |
| SiftHeaders.SerializeLayout | model/sift-header.cc:320-342 | Gives each field's byte offset in the image: bytes 0-3 are the four one-byte fields, then `sourceId` and the six coordinates, then the sequence number at 36-37, TTL at 38, pad at 39, and the source and destination addresses at 40-47 in network order. |
| SiftHeaders.Deserialize | model/sift-header.cc:344-368 | Fails exactly when fewer than 48 bytes remain. Otherwise it consumes 48 bytes and keeps the target's address list. |
| SiftHeaders.ReadSerializedFields | model/sift-header.cc:320-368 | Reading the image of `h` into any header gives `h`, with the target's address list. |
| SiftHeaders.SerializeRoundTrip | model/sift-header.cc:320-368 | Deserialising the image of `h`, followed by any trailing bytes, gives `h` with the target's list and reads exactly 48 bytes. |
| SiftHeaders.SerializeReadFields | model/sift-header.cc:320-368 | Every 48-byte string is the image of the header read from it, so the codec is a bijection on images. |
| SiftHeaders.DeserializeThenSerialize | model/sift-header.cc:320-368 | Serialising a header read from a buffer reproduces the buffer's first 48 bytes. |
| SiftHeaders.NodeAddressesNotSerialized | model/sift-header.cc:249-253 | `SetNodesAddress` changes only byte 1 of the image (the option length, now 10). The addresses themselves never reach the wire. |
| SiftHeaders.FreshHeaderImage | model/sift-header.cc:62-91 | The image of a default header, with the pad corrected to 0, is fully determined: next header 17, option length 0, message type 47, 48 segments left, zero ids, coordinates and sequence number, TTL 64, pad 0, and 127.0.0.1 as both addresses. |
| SiftHeaders.FreshHeaderPadIndeterminate | model/sift-header.cc:62-91 | As written, byte 39 of a default header's image is whatever the uninitialised pad held, so two constructions can serialise differently. |
| Forwarding.NextSeqNo | model/sift-routing.cc:315-319 | The counter goes up by one and wraps from 65535 to 0. |
| Forwarding.SeqNoAfterCalls | model/sift-routing.cc:38 | After `n` calls of GetSeqNo the counter is `(start + n) mod 65536`. |
| Forwarding.SeqNoDistinctWithinPeriod | model/sift-routing.cc:315-319 | Two calls fewer than 65536 apart hand out different sequence numbers. |
| Forwarding.OriginHeader | model/sift-routing.cc:351-387 | Sets the source's header: next header, message type 47, both addresses, the truncated coordinates of the source, the sender and the destination, the sequence number and TTL 64. Every other field keeps the constructor's default, and the pad is 0 as in the corrected `FreshHeader` (see Left out). |
| Forwarding.ForwardHeader | model/sift-routing.cc:747-760 | A relay decrements segments-left and TTL modulo 256, sets message type 2 and writes its own truncated position as the last source. It keeps every other field. |
| Forwarding.ForwardHeaderAsWritten | model/sift-routing.cc:747-760 | As written, the rewrite also sets next header to SIFT's own protocol number, 47. In every other field, the pad and the address list it agrees with `ForwardHeader`. |
| Forwarding.ForwardAsWrittenLosesNextHeader | model/sift-routing.cc:747-760 | For a UDP packet, the rewrite as written changes the next header, which the corrected rewrite keeps. |
| Forwarding.ForwardStep | model/sift-routing.cc:747-760 | One more relay keeps the invariant that the header descends from the original by counted hops. |
| Forwarding.ForwardAlongKeepsIdentity | model/sift-routing.cc:747-760 | After any number of relays, the following are unchanged: the addresses, the sequence number, the source and destination positions and the next header. TTL and segments-left have dropped by the hop count modulo 256, and the last-source position is the last relay's. |
| Forwarding.ForwardWrapsTtl | model/sift-routing.cc:759 | A relay forwarding a packet whose TTL is 0 sends it on with TTL 255. No hop limit is enforced. |
| Forwarding.DeliveryIpHeader | model/sift-routing.cc:689-697 | The IPv4 header handed up at the destination has the SIFT source as its source and this node as its destination. The fields the source copies (protocol, payload size, TOS, TTL, ECN, DSCP) are the carrier's. |
| Forwarding.ForwardDelay | model/sift-routing.cc:817-865 | The delay is never below the 47-microsecond transmission time. When the previous hop's distance is positive, the delay is the transmission time plus 0.01 times the clamped trajectory distance divided by that distance. When the previous hop's distance is 0, the delay equals the transmission time. |
| Forwarding.ForwardDelayAsWritten | model/sift-routing.cc:857-865 | As written, the delay agrees with `ForwardDelay` whenever the previous hop's distance is positive. |
| Forwarding.DelayAsWrittenInfiniteOnLastHop | model/sift-routing.cc:857-865 | As written, a zero distance to the previous hop gives an infinite delay, because the `catch (int)` never fires for floating-point division. The corrected delay is the transmission time. |
| Forwarding.DelayIncreasesWithTrajectoryDistance | model/sift-routing.cc:852-865 | Beyond the clamp, a node farther from the source–destination line waits longer. |
| Forwarding.DelayDecreasesWithProgress | model/sift-routing.cc:857-865 | A node farther from the previous hop waits less. |
| Forwarding.ClampOrdersOnTrajectoryNodes | model/sift-routing.cc:853-856 | A trajectory distance of 0 is clamped to 1. As a result, a node strictly between 0 and 1 from the line waits less than a node exactly on it. |
| Forwarding.OnPathNodeForwardsFirst | model/sift-routing.cc:852-865 | A node on the line, 100 m from the previous hop, fires before a node 50 m off the line at any distance below 5000 m. |
| PendingTables.WireBytes | model/sift-routing.cc:389-396 | A packet on the wire is the 48-byte header followed by its payload. |
| PendingTables.PeekHeaderKey | model/sift-routing.cc:617-624 | Reading the header off a packet's wire bytes recovers the packet's (source, destination, sequence number) key. |
| PendingTables.LiveEntries | model/sift-routing.cc:609-616 | The entries not yet three seconds old are exactly the buffered entries that survive the sweep. None is duplicated: the result's multiset is contained in the buffer's. |
| PendingTables.LiveEntriesAppend | model/sift-routing.cc:609-616 | Sweeping works entry by entry: sweeping a concatenation is concatenating the sweeps, so the survivors keep their order. |
| PendingTables.FirstMatch | model/sift-routing.cc:618-630 | Finds the first live entry with the packet's key. `None` means no live entry matches. |
| PendingTables.ScanMeaning | model/sift-routing.cc:609-642 | The scan keeps every entry after the first live match unswept, removes the aged entries before it, and reports that match. Without a match it removes every aged entry and reports nothing. |
| PendingTables.ScanWithoutMatch | model/sift-routing.cc:609-642 | With no live match, the scan sweeps the whole buffer and finds no duplicate. |
| PendingTables.ScanAtMatch | model/sift-routing.cc:609-642 | With the first live match at `i`, the scan sweeps only the prefix before `i` and returns `buf[i]`. |
| PendingTables.ScanErasesOnlyAged | model/sift-routing.cc:609-616 | The scan erases only entries three seconds or older and never invents an entry. |
| PendingTables.ScanFindsDuplicate | model/sift-routing.cc:618-630 | A duplicate is reported exactly when some buffered entry under three seconds old has the packet's key, and the reported entry is such an entry. |
| PendingTables.ScanWithoutDuplicateSweeps | model/sift-routing.cc:609-642 | When no entry shares the key, the scan reports nothing and keeps exactly the live entries. |
| PendingTables.InsertedIsDuplicateWithinWindow | model/sift-routing.cc:609-650 | A packet buffered at time `at` is reported as a duplicate of any same-key packet received before `at` plus 3 s. |
| PendingTables.AgedIsNotDuplicate | model/sift-routing.cc:609-616 | Once 3 s have passed, a packet that was the only one with its key is no longer a duplicate. |
| PendingTables.Survivors | model/sift-routing.cc:487-493 | The sweep keeps exactly the running timers, with none duplicated: the result's multiset is contained in the table's. |
| PendingTables.Resweep | model/sift-routing.cc:466-500 | ScheduleTimer's sweep keeps only running timers, and every running timer with another key survives it. |
| PendingTables.RemoveFirst | model/sift-routing.cc:515-541 | CancelTimer removes one entry when one has the key. Otherwise the table is unchanged. |
| PendingTables.FindKey | model/sift-routing.cc:524-531 | Finds the first timer with the key, or `None` exactly when there is none. |
| PendingTables.RemoveFirstSplits | model/sift-routing.cc:515-541 | Cancelling removes precisely the first timer with the key. The others stay in order. |
| PendingTables.ResweepUnique | model/sift-routing.cc:466-500 | The sweep keeps keys unique and leaves no timer with the packet's key. |
| PendingTables.SurvivorsUnique | model/sift-routing.cc:487-493 | Keeping only running timers preserves unique keys. |
| PendingTables.RemoveFirstClears | model/sift-routing.cc:515-541 | With unique keys, a cancelled key is gone from the table and the keys stay unique. |
| Geo.FirstIndex | model/sift-geo.cc:44-57 | Finds the first tuple with the address, or `None` exactly when there is none. |
| Geo.Merge | model/sift-geo.cc:66-96 | An update overwrites the coordinates, the velocity, the timestamps, the expiry and the sender, and clears being-updated. It keeps the start time. It sets changed if the velocity differs, and never clears it. |
| Geo.Upsert | model/sift-geo.cc:60-105 | A known address is updated in place. An unknown one is appended and marked changed. |
| Geo.UpsertExisting | model/sift-geo.cc:66-96 | Updating a known address changes only its slot, and reports a trigger exactly when the velocity changed. |
| Geo.UpsertKeepsDistinct | model/sift-geo.cc:60-105 | Inserting keeps at most one tuple per address. |
| Geo.FindAfterUpsert | model/sift-geo.cc:44-105 | After inserting, the address is found, holding the inserted position. |
| Geo.UpsertIdempotent | model/sift-geo.cc:60-105 | Inserting the same tuple twice is the same as inserting it once. |
| Geo.Erased | model/sift-geo.cc:108-139 | Erasing keeps the list's length and addresses. A missing address changes nothing. |
| Geo.EraseKeepsSlot | model/sift-geo.cc:108-139 | Erasing a known address keeps its slot and writes the sentinels: coordinates 9999, velocities 256, recorded time now, other times 0, both flags false, and ns-3's default-constructed address (102.102.102.102) as the sender. The rest is unchanged. |
| Geo.AllChanged | model/sift-geo.cc:141-149 | Every tuple's changed flag gets the given value. Nothing else changes. |
| Geo.TupleChanged | model/sift-geo.cc:151-162 | Only the tuples with the address get the changed flag. |
| Geo.BeingUpdatedSet | model/sift-geo.cc:164-175 | Only the tuples with the address get the being-updated flag. |
| Geo.ChangedAfterAppend | model/sift-geo.cc:99-103 | Marking a newly appended tuple as changed affects only that tuple. |
| Geo.FlagUpdatesKeepAddresses | model/sift-geo.cc:141-175 | Flag updates keep every address and where it is found. |
| Geo.BeingUpdated | model/sift-geo.cc:177-188 | A being-updated answer of true implies the address is stored. |
| Geo.SetThenGetBeingUpdated | model/sift-geo.cc:164-188 | After setting the flag for an address, reading it gives the value set, or false for an unknown address. |
| Geo.UpsertAllKeepsDistinct | model/sift-routing.cc:766-803 | Inserting a series of samples keeps addresses distinct, never shrinks the store and leaves every sampled address stored. |
| Geo.SiftGeo.constructor | model/sift-geo.cc:40 | The store starts empty. |
| Geo.SiftGeo.FindGeographicTuple | model/sift-geo.cc:44-57 | Returns the position of the first tuple with the address, or `None` when no tuple has it. |
| Geo.SiftGeo.InsertGeographicTuple | model/sift-geo.cc:60-105 | The new list is `Upsert` of the old one. The trigger flag is set when a velocity changed and never cleared. |
| Geo.SiftGeo.EraseGeographicTuple | model/sift-geo.cc:108-139 | The new list is `Erased` of the old one. |
| Geo.SiftGeo.UpdateAllTupleIsChanged | model/sift-geo.cc:141-149 | The new list is `AllChanged` of the old one. |
| Geo.SiftGeo.UpdateTupleIsChanged | model/sift-geo.cc:151-162 | The new list is `TupleChanged` of the old one. |
| Geo.SiftGeo.SetIsBeingUpdated | model/sift-geo.cc:164-175 | The new list is `BeingUpdatedSet` of the old one. |
| Geo.SiftGeo.GetIsBeingUpdated | model/sift-geo.cc:177-188 | Returns the flag of the first tuple with the address, and false when there is none. |
| Routing.StatusOf | model/sift-routing.cc:586-893 | Drops return endpoint-unreachable, and a scheduled forward returns OK. A delivery returns the handler's status unchanged. There is no status (the simulation aborts) exactly when no handler exists. |
| Routing.Received | model/sift-routing.cc:558-560 | The header Receive works on has the packet's key and an empty address list. |
| Routing.ReceivedIsDecoded | model/sift-routing.cc:558-560 | Removing the header from a packet's bytes yields exactly that header. |
| Routing.DecideHandles | model/sift-routing.cc:586-673 | A packet is handled exactly when all of these hold: it has a destination, this node is not at its source, and no live copy is buffered. It is delivered exactly when, in addition, it is addressed here. |
| Routing.EchoWithinWindowDropped | model/sift-routing.cc:609-642 | A copy of a packet this node buffered under 3 s ago is always dropped. |
| Routing.ForwardedCopyHasSameKey | model/sift-routing.cc:747-760 | A forwarded copy keeps the original's key, so neighbours recognise it as the same packet. |
| Routing.ForwardOf | model/sift-routing.cc:747-889 | The scheduled forward has the packet's key, a running timer and a delay of at least the transmission time. |
| Routing.UpcallOf | model/sift-routing.cc:672-741 | The upper layer receives the packet's next-header protocol, its payload and the rewritten IPv4 header. |
| Routing.ScheduleLeavesOneTimer | model/sift-routing.cc:447-512 | After scheduling, the table has unique keys and the packet's timer is the last entry. |
| Routing.CancelledNeverFires | model/sift-routing.cc:515-541 | After cancelling, no timer with that key remains to fire. |
| Routing.SiftRouting.constructor | model/sift-routing.cc:130-136 | A new engine has counter 0, an empty buffer, no timers and an empty store. |
| Routing.SiftRouting.SetSeqNo | model/sift-routing.cc:310-313 | Sets the counter. |
| Routing.SiftRouting.GetSeqNo | model/sift-routing.cc:315-319 | Advances the counter modulo 65536 and returns the new value. |
| Routing.SiftRouting.Send | model/sift-routing.cc:322-398 | Sends nothing when source equals destination or the protocol is ICMP. Otherwise: one sequence number is used, the packet with its origin header is appended to the buffer, and it is broadcast under protocol 47. |
| Routing.SiftRouting.SendPacket | model/sift-routing.cc:402-422 | Hands the packet to the network layer under SIFT's protocol number, whatever the protocol argument. |
| Routing.SiftRouting.ForwardPacket | model/sift-routing.cc:433-444 | Rebroadcasts the packet to the broadcast address under SIFT's protocol number. |
| Routing.SiftRouting.ScheduleTimer | model/sift-routing.cc:447-512 | The new table is the old one after the sweep, followed by a running timer for the packet. Keys stay unique. |
| Routing.SiftRouting.CancelTimer | model/sift-routing.cc:515-541 | Removes the first timer with the packet's key. Keys stay unique. |
| Routing.SiftRouting.TimerFires | model/sift-routing.cc:508-511 | A running timer for the key is marked expired and its packet is forwarded. Otherwise nothing happens. |
| Routing.SiftRouting.ScanBuffer | model/sift-routing.cc:609-642 | The new buffer and the duplicate found are those of `Scan`. |
| Routing.SiftRouting.AddGeographicTuple | model/sift-routing.cc:972-976 | The store is `Upsert` of the old store. |
| Routing.SiftRouting.RecordSamples | model/sift-routing.cc:766-803 | The store becomes the old one with each sample upserted in turn, and addresses stay distinct. |
| Routing.SiftRouting.Receive | model/sift-routing.cc:544-893 | Follows `Decide`. An unspecified destination or an overlapping source is dropped with nothing changed. A duplicate sweeps the buffer and cancels its timer. Delivery buffers the packet and makes the upcall, or reports a missing protocol. Forwarding buffers the packet, records the samples and schedules the rewritten packet after the computed delay. The returned status, through `StatusOf`, is endpoint-unreachable for the three drops, OK for a forward, and the handler's status for a delivery; with no handler there is none. |

## Left out

- Node setup and ns-3 plumbing are not modelled. This covers `NotifyNewAggregate`, `Start`, `SetNode`/`GetNode`, `AddNode`/`GetNodesSize`, `SetRoute`, the down-target callbacks, `DoDispose` and `AssignStreams`. None of it changes forwarding decisions.
- The node-list lookups (`GetNodeWithAddress`, `GetIDfromIP`, `GetIPfromID`) are not modelled. They map addresses to simulator nodes for tracing and mobility access.
- Printing and tracing are not modelled. This covers `Print`, `PrintVector`, `PrintSiftHeader`, `PrintReceiveBuffer` and the log-only blocks in Receive.
- The IPv6 `Receive` is not modelled. It does nothing but return endpoint-unreachable.
- Routing.SiftRouting.Receive: the geometry that computes the two distances (the distance from the source–destination line and from the previous hop) becomes the inputs `dTrajectory` and `dLastSource`. The model proves what the delay does with them, not how they are derived from mobility positions.
- Routing.SiftRouting.Receive: the mobility sampling of every node is replaced by a supplied sequence of tuples. The handlers are replaced by a map from protocol to returned status.
- Routing.SiftRouting.Receive: where no protocol is registered for the next header, the source aborts the simulation with a fatal error. The model reports `MissingHandler` instead. The `Simulator::Stop` in the delay's `catch` block is unreachable and is not modelled (see Findings).
- Timers and the scheduler are not modelled as events in time. The delay is kept in seconds, as a real, instead of being converted to ns-3 `Time`. The timer's expiry is an explicit operation, `TimerFires`.
- Routing.SiftRouting.ScanBuffer: the buffer and the timer table are `std::map`s keyed by packet pointer, so the source iterates them in pointer order. The model keeps insertion order. The source also erases while iterating, which the model replaces by the filter that loop evidently intends. It builds the kept entries into a fresh sequence instead of erasing in place.
- Receive also hands the header's `0.0.0.0` destination check a parsed address string. The model compares with the numeric constant 0.
- Forwarding.Representable: positions must truncate to a value that fits in `int32`. The source's double-to-`int32` cast has no defined result outside that range, so Send and Receive require it of their position inputs.
- Routing.SiftRouting.Receive: the forwarding branch applies the corrected rewrite `ForwardHeader`, which keeps the next header. The source sets it to 47 (first row of Findings). It also applies the guarded `ForwardDelay`, which gives the transmission time where the source schedules an infinite delay at zero distance (second row of Findings). The as-written versions are `ForwardHeaderAsWritten` and `ForwardDelayAsWritten`.
- Forwarding.OriginHeader: it builds on the corrected `FreshHeader`, so the pad byte of every packet Send originates is 0. In the source, the header declared in Send never has its pad initialised, so byte 39 on the wire is indeterminate (third row of Findings). Routing.SiftRouting.Send inherits this.
- Routing.ForwardOf: it builds the pending forward from the corrected `ForwardHeader` and the guarded `ForwardDelay`, for the same two reasons.
- Floating-point arithmetic in the delay is modelled over exact reals. Rounding is not modelled.
- Buffer byte order is a parameter of the codec. The source's `WriteU16`/`WriteU32` (host order) and `WriteHtonU32` (network order for addresses) appear as `ByteOrder` and `BigEndian`.
- The packet is modelled as a header value plus payload bytes, not as an ns-3 `Packet`. `PeekHeaderKey` and `ReceivedIsDecoded` tie the two views together.

## Findings

| source | as written | input that shows it | evidently intended | confidence | as-written member | corrected member |
|---|---|---|---|---|---|---|
| model/sift-routing.cc:748 | A relay sets next header to `GetProtocolNumber()` (47). The destination then hands a relayed packet to protocol 47 instead of its transport. | A UDP packet (next header 17) relayed once arrives with next header 47. | Keep the original next header, as the origin set it. | medium, not executed | Forwarding.ForwardAsWrittenLosesNextHeader | Forwarding.ForwardAlongKeepsIdentity |
| model/sift-routing.cc:857-865 | The delay divides by the distance to the previous hop inside `try … catch (int)`. Floating-point division never throws, so a zero distance gives an infinite delay. | `dLastSource = 0` (the relay is at the previous hop's position) gives `+∞` seconds. | The catch path: fall back to the transmission time. | medium, not executed | Forwarding.DelayAsWrittenInfiniteOnLastHop | Forwarding.ForwardDelay |
| model/sift-header.cc:62-91 | The constructor initialises every field except `m_pad`, which `Serialize` writes as byte 39. | Two default-constructed headers whose pad memory holds different garbage serialise differently. | Initialise the pad to 0. | high, not executed | SiftHeaders.FreshHeaderPadIndeterminate | SiftHeaders.FreshHeaderImage |
