/** The SIFT header: a 48-byte record of protocol metadata, the source,
    last-hop and destination coordinates, the sequence number and the TTL,
    with its typed accessors and its wire codec. */
module SiftHeaders {
  import opened Base

  /** Every field of a header. `nodeAddresses` is the address vector that
      SetNodesAddress stores; it is never written to the wire. */
  datatype SiftHeader = SiftHeader(
    nextHeader: U8,
    optionLength: U8,
    messageType: U8,
    segmentsLeft: U8,
    sourceId: U32,
    sourceX: I32,
    sourceY: I32,
    lastSourceX: I32,
    lastSourceY: I32,
    destId: I32,
    destX: I32,
    destY: I32,
    seqNo: U16,
    ttl: U8,
    pad: U8,
    sourceAddress: Ipv4Address,
    destAddress: Ipv4Address,
    nodeAddresses: seq<Ipv4Address>)

  const HeaderSize: nat := 48
  const DefaultTtl: U8 := 64
  const UdpProtocol: U8 := 17
  /** Generic Routing Encapsulation, the protocol number SIFT registers as. */
  const GreProtocol: U8 := 47

  /** The header the constructor builds, as written: every field is
      initialised except the pad byte, so `garbage` stands for whatever the
      memory held. */
  function FreshHeaderAsWritten(garbage: U8): SiftHeader
  {
    SiftHeader(UdpProtocol, 0, GreProtocol, 48, 0, 0, 0, 0, 0, 0, 0, 0,
               0, DefaultTtl, garbage, Loopback, Loopback, [])
  }

  /** The header the constructor evidently intends: the pad byte is zero,
      like every other numeric field it does not set to a protocol value. */
  function FreshHeader(): SiftHeader
  {
    FreshHeaderAsWritten(0)
  }

  // ---------------------------------------------------------------------
  // Typed accessors: one Field per serialised field of the header. Every
  // field has a Set/Get pair in the source except SourceId and DestId,
  // which only Deserialize writes; they are listed so that
  // FieldsDetermineHeader covers every serialised field.

  datatype Field =
    | NextHeader | OptionLength | MessageType | SegmentsLeft
    | SourceId | SourceX | SourceY | LastSourceX | LastSourceY
    | DestId | DestX | DestY | SeqNo | Ttl | SourceAddress | DestAddress

  /** The values a field's declared C++ type can hold. */
  predicate Fits(f: Field, v: int)
  {
    match f
    case NextHeader | OptionLength | MessageType | SegmentsLeft | Ttl => 0 <= v < 0x100
    case SeqNo => 0 <= v < 0x1_0000
    case SourceId | SourceAddress | DestAddress => 0 <= v < 0x1_0000_0000
    case SourceX | SourceY | LastSourceX | LastSourceY | DestId | DestX | DestY =>
      -0x8000_0000 <= v < 0x8000_0000
  }

  /** The getter of field `f`. */
  function Get(h: SiftHeader, f: Field): (v: int)
    ensures Fits(f, v)
  {
    match f
    case NextHeader => h.nextHeader
    case OptionLength => h.optionLength
    case MessageType => h.messageType
    case SegmentsLeft => h.segmentsLeft
    case SourceId => h.sourceId
    case SourceX => h.sourceX
    case SourceY => h.sourceY
    case LastSourceX => h.lastSourceX
    case LastSourceY => h.lastSourceY
    case DestId => h.destId
    case DestX => h.destX
    case DestY => h.destY
    case SeqNo => h.seqNo
    case Ttl => h.ttl
    case SourceAddress => h.sourceAddress
    case DestAddress => h.destAddress
  }

  /** The setter of field `f`: the getter of `f` then returns `v`, and no
      other field, nor the pad byte nor the address vector, changes. */
  function Set(h: SiftHeader, f: Field, v: int): (r: SiftHeader)
    requires Fits(f, v)
    ensures Get(r, f) == v
    ensures forall g :: g != f ==> Get(r, g) == Get(h, g)
    ensures r.pad == h.pad && r.nodeAddresses == h.nodeAddresses
  {
    match f
    case NextHeader => h.(nextHeader := v)
    case OptionLength => h.(optionLength := v)
    case MessageType => h.(messageType := v)
    case SegmentsLeft => h.(segmentsLeft := v)
    case SourceId => h.(sourceId := v)
    case SourceX => h.(sourceX := v)
    case SourceY => h.(sourceY := v)
    case LastSourceX => h.(lastSourceX := v)
    case LastSourceY => h.(lastSourceY := v)
    case DestId => h.(destId := v)
    case DestX => h.(destX := v)
    case DestY => h.(destY := v)
    case SeqNo => h.(seqNo := v)
    case Ttl => h.(ttl := v)
    case SourceAddress => h.(sourceAddress := v)
    case DestAddress => h.(destAddress := v)
  }

  /** The getters, the pad byte and the address vector together determine a
      header: the Field enumeration misses no field. */
  lemma FieldsDetermineHeader(h: SiftHeader, k: SiftHeader)
    requires forall f :: Get(h, f) == Get(k, f)
    requires h.pad == k.pad && h.nodeAddresses == k.nodeAddresses
    ensures h == k
  {
    assert Get(h, NextHeader) == Get(k, NextHeader);
    assert Get(h, OptionLength) == Get(k, OptionLength);
    assert Get(h, MessageType) == Get(k, MessageType);
    assert Get(h, SegmentsLeft) == Get(k, SegmentsLeft);
    assert Get(h, SourceId) == Get(k, SourceId);
    assert Get(h, SourceX) == Get(k, SourceX);
    assert Get(h, SourceY) == Get(k, SourceY);
    assert Get(h, LastSourceX) == Get(k, LastSourceX);
    assert Get(h, LastSourceY) == Get(k, LastSourceY);
    assert Get(h, DestId) == Get(k, DestId);
    assert Get(h, DestX) == Get(k, DestX);
    assert Get(h, DestY) == Get(k, DestY);
    assert Get(h, SeqNo) == Get(k, SeqNo);
    assert Get(h, Ttl) == Get(k, Ttl);
    assert Get(h, SourceAddress) == Get(k, SourceAddress);
    assert Get(h, DestAddress) == Get(k, DestAddress);
  }

  /** Setting a field to the value it already holds changes nothing. */
  lemma SetGetIdentity(h: SiftHeader, f: Field)
    ensures Set(h, f, Get(h, f)) == h
  {
    FieldsDetermineHeader(Set(h, f, Get(h, f)), h);
  }

  /** UpdateHeaderTTL: the TTL goes down by one as a uint8_t, so 0 becomes 255. */
  function UpdateHeaderTtl(h: SiftHeader): (r: SiftHeader)
    ensures r.ttl + 1 == h.ttl || (h.ttl == 0 && r.ttl == 255)
    ensures forall f :: f != Ttl ==> Get(r, f) == Get(h, f)
    ensures r.pad == h.pad && r.nodeAddresses == h.nodeAddresses
  {
    Set(h, Ttl, (h.ttl - 1) % 0x100)
  }

  /** `n` successive calls of UpdateHeaderTTL. */
  function UpdateHeaderTtlTimes(h: SiftHeader, n: nat): SiftHeader
  {
    if n == 0 then h else UpdateHeaderTtl(UpdateHeaderTtlTimes(h, n - 1))
  }

  /** After `n` calls the TTL is the original minus `n` modulo 256, and only
      the TTL has changed; 256 calls give the header back. */
  lemma {:induction false} UpdateHeaderTtlTimesWraps(h: SiftHeader, n: nat)
    ensures UpdateHeaderTtlTimes(h, n).ttl == (h.ttl - n) % 0x100
    ensures UpdateHeaderTtlTimes(h, n) == h.(ttl := (h.ttl - n) % 0x100)
  {
    if n > 0 {
      UpdateHeaderTtlTimesWraps(h, n - 1);
      AddModuloByte(h.ttl - (n - 1), -1);
      var k := UpdateHeaderTtlTimes(h, n - 1);
      var r := UpdateHeaderTtl(k);
      FieldsDetermineHeader(r, h.(ttl := (h.ttl - n) % 0x100));
    }
  }

  // ---------------------------------------------------------------------
  // The address vector, which only lives in memory.

  /** SetNodesAddress stores the vector and sets the option length to 10. */
  function SetNodesAddress(h: SiftHeader, addresses: seq<Ipv4Address>): (r: SiftHeader)
    ensures r.nodeAddresses == addresses && r.optionLength == 10
    ensures forall f :: f != OptionLength ==> Get(r, f) == Get(h, f)
    ensures r.pad == h.pad
  {
    Set(h, OptionLength, 10).(nodeAddresses := addresses)
  }

  /** SetNumberAddress replaces the vector by `n` copies of the address that
      an empty string parses to, 0.0.0.0. */
  function SetNumberAddress(h: SiftHeader, n: U8): (r: SiftHeader)
    ensures |r.nodeAddresses| == n
    ensures forall i :: 0 <= i < n ==> r.nodeAddresses[i] == Unspecified
    ensures forall f :: Get(r, f) == Get(h, f)
    ensures r.pad == h.pad
  {
    h.(nodeAddresses := seq(n, _ => Unspecified))
  }

  /** GetNodeListSize returns the vector's length truncated to uint8_t. */
  function GetNodeListSize(h: SiftHeader): (n: U8)
    ensures |h.nodeAddresses| < 0x100 ==> n == |h.nodeAddresses|
    ensures (|h.nodeAddresses| - n) % 0x100 == 0
  {
    |h.nodeAddresses| % 0x100
  }

  /** SetNodeAddress writes one slot through vector::at, which throws
      std::out_of_range (None here) for an index past the end. */
  function SetNodeAddress(h: SiftHeader, index: U8, address: Ipv4Address): (r: Option<SiftHeader>)
    ensures r.Some? <==> index < |h.nodeAddresses|
    ensures r.Some? ==>
      && |r.value.nodeAddresses| == |h.nodeAddresses|
      && r.value.nodeAddresses[index] == address
      && (forall i :: 0 <= i < |h.nodeAddresses| && i != index ==>
            r.value.nodeAddresses[i] == h.nodeAddresses[i])
      && (forall f :: Get(r.value, f) == Get(h, f))
  {
    if index < |h.nodeAddresses| then
      Some(h.(nodeAddresses := h.nodeAddresses[index := address]))
    else
      None
  }

  /** GetNodeAddress reads one slot through vector::at. */
  function GetNodeAddress(h: SiftHeader, index: U8): (r: Option<Ipv4Address>)
    ensures r.Some? <==> index < |h.nodeAddresses|
    ensures r.Some? ==> r.value == h.nodeAddresses[index]
  {
    if index < |h.nodeAddresses| then Some(h.nodeAddresses[index]) else None
  }

  /** What GetNodeAddress reads back after SetNodeAddress. */
  lemma SetThenGetNodeAddress(h: SiftHeader, i: U8, j: U8, a: Ipv4Address)
    requires i < |h.nodeAddresses| && j < |h.nodeAddresses|
    ensures GetNodeAddress(SetNodeAddress(h, i, a).value, j)
              == Some(if i == j then a else h.nodeAddresses[j])
  {
  }

  // ---------------------------------------------------------------------
  // Byte codec.

  /** The byte order of Buffer::Iterator::WriteU16/WriteU32, which belongs to
      ns-3's Buffer and is a parameter here. IPv4 addresses are always
      written in network order (most significant byte first). */
  datatype ByteOrder = LittleEndian | BigEndian

  function U16Bytes(x: U16, order: ByteOrder): (r: seq<Byte>)
    ensures |r| == 2
  {
    var lo, hi := x % 0x100, x / 0x100;
    if order == LittleEndian then [lo, hi] else [hi, lo]
  }

  function U16Of(b: seq<Byte>, order: ByteOrder): U16
    requires |b| == 2
  {
    var first: int, second: int := b[0], b[1];
    if order == LittleEndian then second * 0x100 + first else first * 0x100 + second
  }

  function U32Bytes(x: U32, order: ByteOrder): (r: seq<Byte>)
    ensures |r| == 4
  {
    var lo, hi := U16Bytes(x % 0x1_0000, order), U16Bytes(x / 0x1_0000, order);
    if order == LittleEndian then lo + hi else hi + lo
  }

  function U32Of(b: seq<Byte>, order: ByteOrder): U32
    requires |b| == 4
  {
    if order == LittleEndian then U16Of(b[2..], order) * 0x1_0000 + U16Of(b[..2], order)
    else U16Of(b[..2], order) * 0x1_0000 + U16Of(b[2..], order)
  }

  lemma U16RoundTrip(x: U16, order: ByteOrder)
    ensures U16Of(U16Bytes(x, order), order) == x
  {
  }

  lemma U16BytesOf(b: seq<Byte>, order: ByteOrder)
    requires |b| == 2
    ensures U16Bytes(U16Of(b, order), order) == b
  {
  }

  lemma U32RoundTrip(x: U32, order: ByteOrder)
    ensures U32Of(U32Bytes(x, order), order) == x
  {
    var lo, hi := U16Bytes(x % 0x1_0000, order), U16Bytes(x / 0x1_0000, order);
    U16RoundTrip(x % 0x1_0000, order);
    U16RoundTrip(x / 0x1_0000, order);
    if order == LittleEndian {
      assert (lo + hi)[..2] == lo && (lo + hi)[2..] == hi;
    } else {
      assert (hi + lo)[..2] == hi && (hi + lo)[2..] == lo;
    }
  }

  lemma U32BytesOf(b: seq<Byte>, order: ByteOrder)
    requires |b| == 4
    ensures U32Bytes(U32Of(b, order), order) == b
  {
    var x := U32Of(b, order);
    U16BytesOf(b[..2], order);
    U16BytesOf(b[2..], order);
    if order == LittleEndian {
      assert x % 0x1_0000 == U16Of(b[..2], order) && x / 0x1_0000 == U16Of(b[2..], order);
    } else {
      assert x % 0x1_0000 == U16Of(b[2..], order) && x / 0x1_0000 == U16Of(b[..2], order);
    }
    assert b == b[..2] + b[2..];
  }

  /** An int32_t written with WriteU32 is its two's-complement bit pattern... */
  function I32Bits(x: I32): U32
  {
    if x < 0 then x + 0x1_0000_0000 else x
  }

  /** ...and ReadU32 assigned to an int32_t member reads the pattern back. */
  function I32OfBits(u: U32): I32
  {
    if u >= 0x8000_0000 then u - 0x1_0000_0000 else u
  }

  lemma I32BitsRoundTrip(x: I32)
    ensures I32OfBits(I32Bits(x)) == x
  {
  }

  lemma I32BitsOf(u: U32)
    ensures I32Bits(I32OfBits(u)) == u
  {
  }

  /** Serialize: the fields in code order. Offsets: 0 next header, 1 option
      length, 2 message type, 3 segments left, 4 source id, 8 source x,
      12 source y, 16 last x, 20 last y, 24 destination id, 28 destination x,
      32 destination y, 36 sequence number, 38 TTL, 39 pad, 40 source
      address, 44 destination address. */
  function Serialize(h: SiftHeader, order: ByteOrder): (r: seq<Byte>)
    ensures |r| == HeaderSize
  {
    [h.nextHeader, h.optionLength, h.messageType, h.segmentsLeft]
    + U32Bytes(h.sourceId, order)
    + U32Bytes(I32Bits(h.sourceX), order)
    + U32Bytes(I32Bits(h.sourceY), order)
    + U32Bytes(I32Bits(h.lastSourceX), order)
    + U32Bytes(I32Bits(h.lastSourceY), order)
    + U32Bytes(I32Bits(h.destId), order)
    + U32Bytes(I32Bits(h.destX), order)
    + U32Bytes(I32Bits(h.destY), order)
    + U16Bytes(h.seqNo, order)
    + [h.ttl, h.pad]
    + U32Bytes(h.sourceAddress, BigEndian)
    + U32Bytes(h.destAddress, BigEndian)
  }

  /** GetSerializedSize: the header is the same size whatever it holds. */
  function GetSerializedSize(h: SiftHeader): (n: nat)
    ensures forall order :: n == |Serialize(h, order)|
  {
    HeaderSize
  }

  /** The header Deserialize leaves behind and the byte count it reports. */
  datatype Decoded = Decoded(header: SiftHeader, consumed: nat)

  /** The fields read from a 48-byte image into `into`, in code order. */
  function ReadFields(into: SiftHeader, b: seq<Byte>, order: ByteOrder): SiftHeader
    requires |b| == HeaderSize
  {
    into.(
      nextHeader := b[0],
      optionLength := b[1],
      messageType := b[2],
      segmentsLeft := b[3],
      sourceId := U32Of(b[4..8], order),
      sourceX := I32OfBits(U32Of(b[8..12], order)),
      sourceY := I32OfBits(U32Of(b[12..16], order)),
      lastSourceX := I32OfBits(U32Of(b[16..20], order)),
      lastSourceY := I32OfBits(U32Of(b[20..24], order)),
      destId := I32OfBits(U32Of(b[24..28], order)),
      destX := I32OfBits(U32Of(b[28..32], order)),
      destY := I32OfBits(U32Of(b[32..36], order)),
      seqNo := U16Of(b[36..38], order),
      ttl := b[38],
      pad := b[39],
      sourceAddress := U32Of(b[40..44], BigEndian),
      destAddress := U32Of(b[44..48], BigEndian))
  }

  /** Deserialize into `into`: every serialized field is overwritten from the
      first 48 bytes, the address vector is kept. A buffer shorter than the
      header makes ns-3's iterator fail; that is None here. */
  function Deserialize(into: SiftHeader, s: seq<Byte>, order: ByteOrder): (r: Option<Decoded>)
    ensures r.Some? <==> |s| >= HeaderSize
    ensures r.Some? ==>
      && r.value.consumed == HeaderSize
      && r.value.header.nodeAddresses == into.nodeAddresses
  {
    if |s| < HeaderSize then None
    else Some(Decoded(ReadFields(into, s[..HeaderSize], order), HeaderSize))
  }

  /** Where each field lands in the serialized bytes. */
  lemma SerializeLayout(h: SiftHeader, order: ByteOrder)
    ensures var b := Serialize(h, order);
      b[0] == h.nextHeader && b[1] == h.optionLength
      && b[2] == h.messageType && b[3] == h.segmentsLeft
      && b[4..8] == U32Bytes(h.sourceId, order)
      && b[8..12] == U32Bytes(I32Bits(h.sourceX), order)
      && b[12..16] == U32Bytes(I32Bits(h.sourceY), order)
      && b[16..20] == U32Bytes(I32Bits(h.lastSourceX), order)
      && b[20..24] == U32Bytes(I32Bits(h.lastSourceY), order)
      && b[24..28] == U32Bytes(I32Bits(h.destId), order)
      && b[28..32] == U32Bytes(I32Bits(h.destX), order)
      && b[32..36] == U32Bytes(I32Bits(h.destY), order)
      && b[36..38] == U16Bytes(h.seqNo, order)
      && b[38] == h.ttl && b[39] == h.pad
      && b[40..44] == U32Bytes(h.sourceAddress, BigEndian)
      && b[44..48] == U32Bytes(h.destAddress, BigEndian)
  {
    ChunkLayout([h.nextHeader, h.optionLength, h.messageType, h.segmentsLeft],
                U32Bytes(h.sourceId, order),
                U32Bytes(I32Bits(h.sourceX), order),
                U32Bytes(I32Bits(h.sourceY), order),
                U32Bytes(I32Bits(h.lastSourceX), order),
                U32Bytes(I32Bits(h.lastSourceY), order),
                U32Bytes(I32Bits(h.destId), order),
                U32Bytes(I32Bits(h.destX), order),
                U32Bytes(I32Bits(h.destY), order),
                U16Bytes(h.seqNo, order),
                [h.ttl, h.pad],
                U32Bytes(h.sourceAddress, BigEndian),
                U32Bytes(h.destAddress, BigEndian));
  }

  /** The offsets of the pieces of a 48-byte image, whatever the pieces hold. */
  lemma ChunkLayout(head: seq<Byte>, a1: seq<Byte>, a2: seq<Byte>, a3: seq<Byte>,
                    a4: seq<Byte>, a5: seq<Byte>, a6: seq<Byte>, a7: seq<Byte>,
                    a8: seq<Byte>, sq: seq<Byte>, tp: seq<Byte>, a9: seq<Byte>, a10: seq<Byte>)
    requires |head| == 4 && |sq| == 2 && |tp| == 2
    requires |a1| == 4 && |a2| == 4 && |a3| == 4 && |a4| == 4 && |a5| == 4
    requires |a6| == 4 && |a7| == 4 && |a8| == 4 && |a9| == 4 && |a10| == 4
    ensures var b := head + a1 + a2 + a3 + a4 + a5 + a6 + a7 + a8 + sq + tp + a9 + a10;
      b[0] == head[0] && b[1] == head[1] && b[2] == head[2] && b[3] == head[3]
      && b[4..8] == a1 && b[8..12] == a2 && b[12..16] == a3 && b[16..20] == a4
      && b[20..24] == a5 && b[24..28] == a6 && b[28..32] == a7 && b[32..36] == a8
      && b[36..38] == sq && b[38] == tp[0] && b[39] == tp[1]
      && b[40..44] == a9 && b[44..48] == a10
  {
  }

  /** Reading the fields back from a serialized header gives the header. */
  lemma {:induction false} ReadSerializedFields(h: SiftHeader, into: SiftHeader, order: ByteOrder)
    ensures ReadFields(into, Serialize(h, order), order) == h.(nodeAddresses := into.nodeAddresses)
  {
    SerializeLayout(h, order);
    U32RoundTrip(h.sourceId, order);
    U32RoundTrip(I32Bits(h.sourceX), order);
    U32RoundTrip(I32Bits(h.sourceY), order);
    U32RoundTrip(I32Bits(h.lastSourceX), order);
    U32RoundTrip(I32Bits(h.lastSourceY), order);
    U32RoundTrip(I32Bits(h.destId), order);
    U32RoundTrip(I32Bits(h.destX), order);
    U32RoundTrip(I32Bits(h.destY), order);
    U16RoundTrip(h.seqNo, order);
    U32RoundTrip(h.sourceAddress, BigEndian);
    U32RoundTrip(h.destAddress, BigEndian);
  }

  /** Deserialize(Serialize(h)) restores every serialized field, whatever
      follows the header in the buffer and whatever header it reads into. */
  lemma {:induction false} SerializeRoundTrip(h: SiftHeader, into: SiftHeader, rest: seq<Byte>, order: ByteOrder)
    ensures Deserialize(into, Serialize(h, order) + rest, order)
              == Some(Decoded(h.(nodeAddresses := into.nodeAddresses), HeaderSize))
  {
    var b := Serialize(h, order);
    assert (b + rest)[..HeaderSize] == b;
    ReadSerializedFields(h, into, order);
  }

  /** A 48-byte image is the concatenation of its field slices. */
  lemma ImageSlices(b: seq<Byte>)
    requires |b| == HeaderSize
    ensures b == [b[0], b[1], b[2], b[3]] + b[4..8] + b[8..12] + b[12..16] + b[16..20]
               + b[20..24] + b[24..28] + b[28..32] + b[32..36] + b[36..38]
               + [b[38], b[39]] + b[40..44] + b[44..48]
  {
  }

  /** The other direction: every 48-byte image is the serialization of the
      header read from it, so the codec is a bijection between headers
      (address vector aside) and 48-byte strings. */
  lemma {:induction false} SerializeReadFields(into: SiftHeader, b: seq<Byte>, order: ByteOrder)
    requires |b| == HeaderSize
    ensures Serialize(ReadFields(into, b, order), order) == b
  {
    U32BytesOf(b[4..8], order);
    U32BytesOf(b[8..12], order);
    U32BytesOf(b[12..16], order);
    U32BytesOf(b[16..20], order);
    U32BytesOf(b[20..24], order);
    U32BytesOf(b[24..28], order);
    U32BytesOf(b[28..32], order);
    U32BytesOf(b[32..36], order);
    U16BytesOf(b[36..38], order);
    U32BytesOf(b[40..44], BigEndian);
    U32BytesOf(b[44..48], BigEndian);
    I32BitsOf(U32Of(b[8..12], order));
    I32BitsOf(U32Of(b[12..16], order));
    I32BitsOf(U32Of(b[16..20], order));
    I32BitsOf(U32Of(b[20..24], order));
    I32BitsOf(U32Of(b[24..28], order));
    I32BitsOf(U32Of(b[28..32], order));
    I32BitsOf(U32Of(b[32..36], order));
    ImageSlices(b);
  }

  /** Deserialize then Serialize gives back the bytes that were read. */
  lemma DeserializeThenSerialize(into: SiftHeader, s: seq<Byte>, order: ByteOrder)
    requires |s| >= HeaderSize
    ensures Serialize(Deserialize(into, s, order).value.header, order) == s[..HeaderSize]
  {
    SerializeReadFields(into, s[..HeaderSize], order);
  }

  /** The address vector never reaches the wire: SetNodesAddress changes the
      serialized bytes only in the option-length byte. */
  lemma NodeAddressesNotSerialized(h: SiftHeader, addresses: seq<Ipv4Address>, order: ByteOrder)
    ensures Serialize(SetNodesAddress(h, addresses), order)
              == Serialize(h, order)[1 := 10]
  {
    var r := SetNodesAddress(h, addresses);
    var g := h.(optionLength := 10, nodeAddresses := addresses);
    FieldsDetermineHeader(r, g);
    var s := Serialize(h, order);
    var b := s[1 := 10];
    assert b[4..8] == s[4..8] && b[8..12] == s[8..12] && b[12..16] == s[12..16];
    assert b[16..20] == s[16..20] && b[20..24] == s[20..24] && b[24..28] == s[24..28];
    assert b[28..32] == s[28..32] && b[32..36] == s[32..36] && b[36..38] == s[36..38];
    assert b[40..44] == s[40..44] && b[44..48] == s[44..48];
    ReadSerializedFields(h, g, order);
    assert ReadFields(g, b, order) == g;
    SerializeReadFields(g, b, order);
  }

  /** The 48-byte image of a fresh header, in either byte order: protocol 17,
      option length 0, type 47, 48 segments, zero ids, coordinates and
      sequence number, TTL 64, pad 0, and 127.0.0.1 twice. */
  lemma FreshHeaderImage(order: ByteOrder)
    ensures Serialize(FreshHeader(), order)
      == [17, 0, 47, 48] + seq(32, _ => 0) + [0, 0, 64, 0] + [127, 0, 0, 1, 127, 0, 0, 1]
  {
  }

  /** A fresh header as written does not determine its own serialization:
      byte 39 is whatever the uninitialised pad held. */
  lemma FreshHeaderPadIndeterminate(g1: U8, g2: U8, order: ByteOrder)
    requires g1 != g2
    ensures Serialize(FreshHeaderAsWritten(g1), order)[39] == g1
    ensures Serialize(FreshHeaderAsWritten(g1), order) != Serialize(FreshHeaderAsWritten(g2), order)
  {
    SerializeLayout(FreshHeaderAsWritten(g1), order);
    SerializeLayout(FreshHeaderAsWritten(g2), order);
  }
}
